/** Hashing a byte stream block by block, for any compression function. */
module BlockFold {
  import opened Bits
  import opened Memory

  type Block64 = b: seq<u8> | |b| == 64 witness Zeros(64)

  /** The value after the first n 64-byte blocks of a message. */
  function FoldBlocks<H>(f: (H, Block64) -> H, start: H, message: seq<u8>, n: nat): H
    requires 64 * n <= |message|
    decreases n
  {
    if n == 0 then start else f(FoldBlocks(f, start, message, n - 1), Cut(message, 64 * (n - 1), 64))
  }

  /** Blocks already complete do not change when a message grows. */
  lemma {:induction false} FoldPrefix<H>(f: (H, Block64) -> H, start: H, message: seq<u8>, more: seq<u8>, n: nat)
    requires 64 * n <= |message|
    ensures FoldBlocks(f, start, message + more, n) == FoldBlocks(f, start, message, n)
    decreases n
  {
    if n > 0 {
      FoldPrefix(f, start, message, more, n - 1);
      CutLeft(message, more, 64 * (n - 1), 64);
    }
  }

  /**
   What a streaming hash keeps of a message: the value of its complete blocks, and the
   remaining bytes at the front of a 64-byte buffer.
   */
  ghost predicate Streams<H>(f: (H, Block64) -> H, start: H, message: seq<u8>, value: H, buffer: seq<u8>) {
    && |buffer| == 64
    && value == FoldBlocks(f, start, message, |message| / 64)
    && Cut(buffer, 0, |message| % 64) == Tail(message)
  }

  /** The bytes after the last complete block. */
  function Tail(message: seq<u8>): (t: seq<u8>)
    ensures |t| == |message| % 64
  {
    Cut(message, |message| - |message| % 64, |message| % 64)
  }

  /** How the block count and the remainder move when a block is not completed, or just completed. */
  lemma CountBlocks(n: nat, k: nat)
    requires n % 64 + k <= 64
    ensures n % 64 + k < 64 ==> (n + k) / 64 == n / 64 && (n + k) % 64 == n % 64 + k
    ensures n % 64 + k == 64 ==> (n + k) / 64 == n / 64 + 1 && (n + k) % 64 == 0
    ensures n - n % 64 == 64 * (n / 64)
  {
    if n % 64 + k < 64 {
      DivModUnique(n + k, 64, n / 64, n % 64 + k);
    } else {
      DivModUnique(n + k, 64, n / 64 + 1, 0);
    }
  }

  /** With n whole blocks and r bytes behind them, data joins the same r bytes in the buffer. */
  lemma BufferedTail(message: seq<u8>, n: nat, r: nat, buffer: seq<u8>, data: seq<u8>)
    requires |buffer| == 64 && |message| == 64 * n + r && r + |data| <= 64
    requires Cut(buffer, 0, r) == Cut(message, 64 * n, r)
    ensures Cut(Spliced(buffer, r, data), 0, r + |data|) == Cut(message + data, 64 * n, r + |data|)
  {
    hide Spliced, Cut;
    SplicedFront(buffer, r, data);
    CutAppend(message, data, 64 * n, r);
  }

  /** Bytes that do not complete the buffered block just join it. */
  lemma StreamsPartial<H>(f: (H, Block64) -> H, start: H, message: seq<u8>, value: H, buffer: seq<u8>, data: seq<u8>)
    requires Streams(f, start, message, value, buffer) && |message| % 64 + |data| < 64
    ensures Streams(f, start, message + data, value, Spliced(buffer, |message| % 64, data))
  {
    hide FoldBlocks, Spliced, Cut;
    CountBlocks(|message|, |data|);
    CountBlocks(|message + data|, 0);
    FoldPrefix(f, start, message, data, |message| / 64);
    BufferedTail(message, |message| / 64, |message| % 64, buffer, data);
  }

  lemma FoldNext<H>(f: (H, Block64) -> H, start: H, message: seq<u8>, n: nat)
    requires 64 * (n + 1) <= |message|
    ensures FoldBlocks(f, start, message, n + 1) == f(FoldBlocks(f, start, message, n), Cut(message, 64 * n, 64))
  {
  }

  lemma CutNothing(s: seq<u8>, at: nat)
    requires at <= |s|
    ensures Cut(s, at, 0) == []
  {
  }

  /** Whatever the buffer holds, it represents no byte after whole blocks. */
  lemma StreamsWhole<H>(f: (H, Block64) -> H, start: H, message: seq<u8>, value: H, buffer: seq<u8>)
    requires |message| % 64 == 0 && |buffer| == 64 && value == FoldBlocks(f, start, message, |message| / 64)
    ensures Streams(f, start, message, value, buffer)
  {
    CutNothing(buffer, 0);
    CutNothing(message, |message|);
  }

  /** Bytes that exactly complete the buffered block let it be folded in; the buffer is free again. */
  lemma StreamsFull<H>(f: (H, Block64) -> H, start: H, message: seq<u8>, value: H, buffer: seq<u8>, data: seq<u8>)
    requires Streams(f, start, message, value, buffer) && |message| % 64 + |data| == 64
    ensures Streams(f, start, message + data, f(value, Spliced(buffer, |message| % 64, data)),
                    Spliced(buffer, |message| % 64, data))
  {
    hide FoldBlocks, Spliced, Cut;
    var all, n, block := message + data, |message| / 64, Spliced(buffer, |message| % 64, data);
    CountBlocks(|message|, |data|);
    FoldPrefix(f, start, message, data, n);
    BufferedTail(message, |message| / 64, |message| % 64, buffer, data);
    CutAll(block);
    FoldNext(f, start, all, n);
    StreamsWhole(f, start, all, f(value, block), block);
  }

  lemma CutAll(s: seq<u8>)
    ensures Cut(s, 0, |s|) == s
  {
  }

  /** A whole block read straight from the data, with nothing buffered. */
  lemma StreamsBlock<H>(f: (H, Block64) -> H, start: H, message: seq<u8>, value: H, buffer: seq<u8>, block: Block64)
    requires Streams(f, start, message, value, buffer) && |message| % 64 == 0
    ensures Streams(f, start, message + block, f(value, block), buffer)
  {
    hide FoldBlocks, Cut;
    var n := |message| / 64;
    CountBlocks(|message|, 64);
    FoldPrefix(f, start, message, block, n);
    CutRight(message, block);
    FoldNext(f, start, message + block, n);
    StreamsWhole(f, start, message + block, f(value, block), buffer);
  }
}
