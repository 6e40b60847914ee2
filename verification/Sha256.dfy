/** The streaming SHA-256 object and its agreement with the one-shot definition. */
module Sha256 {
  import opened Bits
  import opened Memory
  import opened Mixing
  import opened BlockFold
  import opened Sha256Spec

  /** The words held in the state array. */
  function WordsOf(s: seq<u32>): Words
    requires |s| == 8
  {
    Words(s[0], s[1], s[2], s[3], s[4], s[5], s[6], s[7])
  }

  lemma CountMod64(n: nat)
    ensures (n % TWO64) % 64 == n % 64
  {
    var q, r := n / TWO64, n % TWO64;
    assert n == (q * 0x400_0000_0000_0000 + r / 64) * 64 + r % 64;
    DivModUnique(n, 64, q * 0x400_0000_0000_0000 + r / 64, r % 64);
  }

  lemma NextBlock(n: nat)
    requires n % 64 == 0
    ensures (n + 64) % 64 == 0
  {
  }

  lemma FillsBlock(n: nat, k: nat)
    requires n % 64 + k <= 64
    ensures k > 0 && (n + k) % 64 == 0 <==> n % 64 + k == 64
  {
    if n % 64 + k == 64 {
      DivModUnique(n + k, 64, n / 64 + 1, 0);
    } else {
      DivModUnique(n + k, 64, n / 64, n % 64 + k);
    }
  }

  lemma AddCount(n: nat, k: nat)
    ensures (n % TWO64 + k) % TWO64 == (n + k) % TWO64
  {
    var q, r := n / TWO64, n % TWO64;
    DivModUnique(n + k, TWO64, q + (r + k) / TWO64, (r + k) % TWO64);
  }

  class SHA256 {
    const state: array<u32>
    var count: u64
    const buffer: array<u8>
    /** Every byte absorbed so far. */
    ghost var message: seq<u8>

    ghost predicate Shaped()
      reads this
    {
      state.Length == 8 && buffer.Length == 64
    }

    /** State and buffer represent the message: its whole blocks are hashed, the rest is buffered. */
    ghost predicate Valid()
      reads this, state, buffer
    {
      && Shaped()
      && count == |message| % TWO64
      && Represents(message, WordsOf(state[..]), buffer[..])
    }

    constructor ()
      ensures Valid() && message == [] && fresh(state) && fresh(buffer)
    {
      state := new u32[8] [
        0x6a09e667, 0xbb67ae85, 0x3c6ef372, 0xa54ff53a, 0x510e527f, 0x9b05688c, 0x1f83d9ab, 0x5be0cd19];
      buffer := new u8[64](_ => 0);
      count := 0;
      message := [];
      new;
      assert WordsOf(state[..]) == IV;
      RepresentsNothing(buffer[..]);
    }

    /** The two loops that fill the message schedule. */
    static method FillSchedule(data: Block64) returns (m: array<u32>)
      ensures m.Length == 64 && fresh(m) && m[..] == ScheduleOf(data)
    {
      hide ScheduleOf, BlockWord, Expand;
      m := new u32[64](_ => 0);
      ghost var was, target := m[..], ScheduleOf(data);
      var i, j := 0, 0;
      while i < 16
        invariant 0 <= i <= 16 && j == 4 * i && Progress(m[..], was, target, i)
      {
        ScheduleStart(data, i);
        WordAt(data, i);
        m[i] := FromFour(data[j], data[j + 1], data[j + 2], data[j + 3]);
        i, j := i + 1, j + 4;
      }
      while i < 64
        invariant 16 <= i <= 64 && Progress(m[..], was, target, i)
      {
        ScheduleNext(data, i);
        m[i] := Expand(m[i - 2], m[i - 7], m[i - 15], m[i - 16]);
        i := i + 1;
      }
      ProgressDone(m[..], was, target);
    }

    /** One block into the state. */
    method Transform(data: Block64)
      requires Shaped()
      modifies state
      ensures WordsOf(state[..]) == Compress(old(WordsOf(state[..])), data)
    {
      var m := FillSchedule(data);
      var v := Rounds(Words(state[0], state[1], state[2], state[3], state[4], state[5], state[6], state[7]), data, m);
      AddWords(v);
    }

    /** The 64 rounds over the working variables. */
    static method Rounds(start: Words, ghost data: Block64, m: array<u32>) returns (v: Words)
      requires m.Length == 64 && m[..] == ScheduleOf(data)
      ensures v == Steps(start, data, 64)
    {
      var a, b, c, d := start.a, start.b, start.c, start.d;
      var e, f, g, h := start.e, start.f, start.g, start.h;
      for i := 0 to 64
        invariant Words(a, b, c, d, e, f, g, h) == Steps(start, data, i)
      {
        assert m[i] == ScheduleOf(data)[i];
        a, b, c, d, e, f, g, h := OneRound(a, b, c, d, e, f, g, h, RoundConstant(i), m[i]);
      }
      v := Words(a, b, c, d, e, f, g, h);
    }

    /** The body of the round loop. */
    static method OneRound(a0: u32, b0: u32, c0: u32, d0: u32, e0: u32, f0: u32, g0: u32, h0: u32, k: u32, w: u32)
      returns (a: u32, b: u32, c: u32, d: u32, e: u32, f: u32, g: u32, h: u32)
      ensures Words(a, b, c, d, e, f, g, h) == Step(Words(a0, b0, c0, d0, e0, f0, g0, h0), k, w)
    {
      a, b, c, d, e, f, g, h := a0, b0, c0, d0, e0, f0, g0, h0;
      var t1 := Add32(Add32(Add32(Add32(h, BigSigma1(e)), Ch(e, f, g)), k), w);
      var t2 := Add32(BigSigma0(a), Maj(a, b, c));
      h := g;
      g := f;
      f := e;
      e := Add32(d, t1);
      d := c;
      c := b;
      b := a;
      a := Add32(t1, t2);
    }

    /** Adds the working variables to the state words. */
    method AddWords(v: Words)
      requires Shaped()
      modifies state
      ensures WordsOf(state[..]) == Plus(old(WordsOf(state[..])), v)
    {
      state[0] := Add32(state[0], v.a);
      state[1] := Add32(state[1], v.b);
      state[2] := Add32(state[2], v.c);
      state[3] := Add32(state[3], v.d);
      state[4] := Add32(state[4], v.e);
      state[5] := Add32(state[5], v.f);
      state[6] := Add32(state[6], v.g);
      state[7] := Add32(state[7], v.h);
    }

    /** Copies data to the buffered part of a block and folds the block in once it is full. */
    method TopUp(data: seq<u8>)
      requires Valid() && |message| % 64 + |data| <= 64
      modifies this, state, buffer
      ensures Valid() && message == old(message) + data
    {
      hide Compress, Streams, Represents;
      ghost var was, hash, half := message, WordsOf(state[..]), buffer[..];
      CountMod64(|message|);
      AddCount(|message|, |data|);
      FillsBlock(|message|, |data|);
      CopyBytes(data, buffer, count % 64);
      count := (count + |data|) % TWO64;
      message := message + data;
      CountMod64(|message|);
      if |data| > 0 && count % 64 == 0 {
        RepresentsFull(was, hash, half, data);
        Transform(buffer[..]);
      } else {
        RepresentsPartial(was, hash, half, data);
      }
    }

    /** Hashes one whole block straight from the data. */
    method TakeBlock(block: Block64)
      requires Valid() && |message| % 64 == 0
      modifies this, state
      ensures Valid() && message == old(message) + block && |message| % 64 == 0
    {
      hide Compress, Streams;
      RepresentsBlock(message, WordsOf(state[..]), buffer[..], block);
      AddCount(|message|, 64);
      NextBlock(|message|);
      Transform(block);
      count := (count + 64) % TWO64;
      message := message + block;
    }

    /** update: tops up a partial block, takes whole blocks, buffers the rest. */
    method Update(data: seq<u8>)
      requires Valid()
      modifies this, state, buffer
      ensures Valid() && message == old(message) + data
    {
      hide Compress, Streams, Represents;
      ghost var was := message;
      var i := 0;
      CountMod64(|message|);
      if count % 64 != 0 {
        var left := 64 - count % 64;
        var toCopy := if |data| < left then |data| else left;
        FillsBlock(|message|, toCopy);
        TopUp(data[..toCopy]);
        i := toCopy;
      }
      assert message == was + data[..i];
      CountMod64(|message|);
      while i + 64 <= |data|
        invariant 0 <= i <= |data| && Valid() && message == was + data[..i]
        invariant i < |data| ==> |message| % 64 == 0
      {
        TakeBlock(data[i..i + 64]);
        assert data[..i + 64] == data[..i] + data[i..i + 64];
        i := i + 64;
      }
      assert data == data[..i] + data[i..];
      if i < |data| {
        TopUp(data[i..]);
      }
    }

    /** finalize: pads with 0x80, zeros and the bit count modulo 2^64, and reads out the state. */
    method Finalize() returns (hash: seq<u8>)
      requires Valid()
      modifies this, state, buffer
      ensures Valid()
      ensures hash == DigestWith(old(message), (8 * |old(message)|) % TWO64)
    {
      hide Compress, Streams, Represents;
      ghost var m := message;
      BitLength(|m|);
      var bitLen := (count * 8) % TWO64;
      Update([0x80]);
      ghost var zeros := 0;
      CountMod64(|message|);
      while count % 64 != 56
        invariant Valid() && 0 <= zeros <= ZeroCount(|m|) && message == m + [0x80] + Zeros(zeros)
        invariant count % 64 == |message| % 64
        decreases ZeroCount(|m|) - zeros
      {
        ZerosLeft(|m|, zeros);
        ZerosAppend(zeros, 1);
        Update([0]);
        CountMod64(|message|);
        zeros := zeros + 1;
      }
      ZerosDone(|m|, zeros);
      var lenBytes := LengthBytes(bitLen);
      Update(lenBytes);
      hash := ReadOut();
    }

    /** The eight length bytes, most significant first. */
    static method LengthBytes(bitLen: u64) returns (b: seq<u8>)
      ensures b == BigEndian(bitLen, 8)
    {
      var bytes := new u8[8](_ => 0);
      ghost var target := BigEndian(bitLen, 8);
      var i := 7;
      while i >= 0
        invariant -1 <= i <= 7
        invariant forall k :: i < k < 8 ==> bytes[k] == target[k]
      {
        BigEndianAt(bitLen, 8, i);
        bytes[i] := Shr(bitLen, (7 - i) * 8) % 0x100;
        i := i - 1;
      }
      b := bytes[..];
    }

    /** The state words, big-endian. */
    method ReadOut() returns (hash: seq<u8>)
      requires Valid()
      ensures hash == Output(HashBlocks(message, |message| / 64))
    {
      hash := WordBytes(state[0]) + WordBytes(state[1]) + WordBytes(state[2]) + WordBytes(state[3])
            + WordBytes(state[4]) + WordBytes(state[5]) + WordBytes(state[6]) + WordBytes(state[7]);
      RepresentsWhole(message, WordsOf(state[..]), buffer[..]);
    }
  }

  lemma BitLength(n: nat)
    ensures ((n % TWO64) * 8) % TWO64 == (8 * n) % TWO64
  {
    var q, r := n / TWO64, n % TWO64;
    DivModUnique(8 * n, TWO64, 8 * q + (8 * r) / TWO64, (8 * r) % TWO64);
  }

  lemma ZerosLeft(len: nat, zeros: nat)
    requires zeros <= ZeroCount(len) && (len + 1 + zeros) % 64 != 56
    ensures zeros < ZeroCount(len)
  {
  }

  lemma ZerosDone(len: nat, zeros: nat)
    requires zeros <= ZeroCount(len) && (len + 1 + zeros) % 64 == 56
    ensures zeros == ZeroCount(len)
  {
  }

  lemma {:induction false} BigEndianAt(x: nat, n: nat, i: nat)
    requires i < n
    ensures BigEndian(x, n)[i] == Shr(x, (n - 1 - i) * 8) % 0x100
    decreases n
  {
    if i < n - 1 {
      BigEndianAt(x / 0x100, n - 1, i);
      ShrShr(x, 8, (n - 2 - i) * 8);
      ShrByte(x);
    }
  }

  // ---------------------------------------------------------------- whole messages

  function Concat(chunks: seq<seq<u8>>): seq<u8>
    decreases |chunks|
  {
    if |chunks| == 0 then [] else Concat(chunks[..|chunks| - 1]) + chunks[|chunks| - 1]
  }

  /** The whole message is its chunks one behind the other, wherever it is cut. */
  lemma {:induction false} ConcatJoins(a: seq<seq<u8>>, b: seq<seq<u8>>, chunk: seq<u8>)
    ensures Concat(a + b) == Concat(a) + Concat(b) && Concat([]) == [] && Concat([chunk]) == chunk
    decreases |b|
  {
    if |b| == 0 {
      assert a + b == a;
    } else {
      var n := |b| - 1;
      assert (a + b)[..|a| + n] == a + b[..n];
      ConcatJoins(a, b[..n], chunk);
    }
    assert [chunk][..0] == [];
  }

  /** However a message is split over update calls, the digest is that of the whole message. */
  method DigestOfChunks(chunks: seq<seq<u8>>) returns (hash: seq<u8>)
    requires |Concat(chunks)| < 0x2000_0000_0000_0000
    ensures hash == Sha256(Concat(chunks))
  {
    hide Compress, Streams, Represents;
    var sha := new SHA256();
    for i := 0 to |chunks|
      invariant sha.Valid() && sha.message == Concat(chunks[..i])
      invariant fresh(sha) && fresh(sha.state) && fresh(sha.buffer)
    {
      assert chunks[..i + 1][..i] == chunks[..i];
      sha.Update(chunks[i]);
    }
    assert chunks[..|chunks|] == chunks;
    DigestIsSha256(sha.message);
    hash := sha.Finalize();
  }

  /** The comparison loop of verify_seed. */
  method SameBytes(a: seq<u8>, b: seq<u8>) returns (same: bool)
    requires |a| == |b|
    ensures same <==> a == b
  {
    for i := 0 to |a|
      invariant forall k :: 0 <= k < i ==> a[k] == b[k]
    {
      if a[i] != b[i] {
        return false;
      }
    }
    return true;
  }

  /** verify_seed: compares the digest of the sixteen seed bytes with an expected one. */
  method VerifySeed(s: Value128, expected: seq<u8>) returns (ok: bool)
    requires |expected| == 32
    ensures ok <==> expected == Sha256(LeBytes(s.hi, 8) + LeBytes(s.lo, 8))
  {
    hide Compress, Streams, Represents;
    var data := LeBytes(s.hi, 8) + LeBytes(s.lo, 8);
    var sha := new SHA256();
    sha.Update(data);
    assert sha.message == data;
    DigestIsSha256(data);
    var hash := sha.Finalize();
    ok := SameBytes(hash, expected);
  }
}
