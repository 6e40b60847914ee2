/**
 The block store as a value: what each operation of the topology does to the seed, the keys and
 the blocks, and what holds over runs of operations.
 */
module StoreModel {
  import opened Bits
  import opened Memory
  import opened Mixing
  import opened BlockAtom
  import opened BlockImage
  import opened BlockStore

  /** level1 holds one optional block per lens; None is a null pointer. */
  datatype Store = Store(
    seed: Value128, lensKeys: seq<Value128>, root: Block, level1: seq<Option<Block>>, dirty: bool)

  ghost predicate Shaped(st: Store) {
    |st.level1| == LENS_COUNT && |st.lensKeys| == LENS_COUNT
  }

  // ---------------------------------------------------------------- initialize

  function FreshBlock(): Block {
    FreedBlock(seq(ENTRIES_PER_BLOCK, _ => Value128(0, 0)))
  }

  /** expand_block: keystream atoms whose routes are FREE. */
  function ExpandedEntry(key: Value128, j: nat): Value128 {
    PackRoute(Stirred(key, 13, 17, j + 1), FREE_ROUTE)
  }

  function ExpandedBlock(key: Value128): Block {
    seq(ENTRIES_PER_BLOCK, j requires 0 <= j < ENTRIES_PER_BLOCK => ExpandedEntry(key, j))
  }

  function Initialized(s: Value128): (st: Store)
    ensures Shaped(st)
  {
    Store(s, LensKeys(s), FreshBlock(),
          seq(LENS_COUNT, i requires 0 <= i < LENS_COUNT => Some(ExpandedBlock(LensKeys(s)[i]))), true)
  }

  /**
   After initialize: the root holds zero payloads, entry j of block i holds the payload of the
   keystream after j + 1 steps from lens key i, every route is 0x3FD, and the topology is dirty.
   */
  lemma InitializedIs(s: Value128, i: nat, j: nat)
    requires i < 1024 && j < 1024
    ensures var st := Initialized(s);
      && st.seed == s && st.lensKeys == LensKeys(s) && st.dirty && st.level1[i].Some?
      && Payload(st.root[j]) == Zeros(13) && Route(st.root[j]) == 0x3FD
      && Payload(st.level1[i].value[j]) == Payload(Stirred(LensKey(s, i), 13, 17, j + 1))
      && Route(st.level1[i].value[j]) == 0x3FD
  {
    hide PackRoute, Payload, Route, Stirred, LensKey, CrcValid;
    LinkedFields(Value128(0, 0), FREE_ROUTE);
    LinkedFields(Stirred(LensKey(s, i), 13, 17, j + 1), FREE_ROUTE);
    ZeroPayload();
  }

  lemma ZeroPayload()
    ensures Payload(Value128(0, 0)) == Zeros(13)
  {
    ZeroBytes(8);
    ZeroBytes(5);
    ZerosAppend(8, 5);
  }

  // ---------------------------------------------------------------- writing and reading

  predicate Present(st: Store, idx: u16) {
    idx < |st.level1| && st.level1[idx].Some?
  }

  function Written(st: Store, idx: u16, data: seq<u8>): Store {
    if Present(st, idx) then
      st.(level1 := st.level1[idx := Some(WrittenBlock(st.level1[idx].value, data))], dirty := true)
    else st
  }

  function WrittenCount(st: Store, idx: u16, data: seq<u8>): nat {
    if Present(st, idx) then Min(|data|, BYTES_PER_BLOCK) else 0
  }

  function Read(st: Store, idx: u16, room: nat): (out: seq<u8>)
    ensures |out| <= room
  {
    if Present(st, idx) then ReadBlock(st.level1[idx].value, room) else []
  }

  /** A write to a present block counts at most 13312 bytes and marks the topology dirty; otherwise nothing happens. */
  lemma WrittenIs(st: Store, idx: u16, data: seq<u8>)
    requires Shaped(st)
    ensures Present(st, idx) <==> idx < 1024 && st.level1[idx].Some?
    ensures Present(st, idx) ==>
      && WrittenCount(st, idx, data) == Min(|data|, 13312)
      && Written(st, idx, data).dirty
      && Written(st, idx, data).(dirty := st.dirty)
         == st.(level1 := st.level1[idx := Some(WrittenBlock(st.level1[idx].value, data))])
    ensures !Present(st, idx) ==> WrittenCount(st, idx, data) == 0 && Written(st, idx, data) == st
  {
  }

  /** The part of the data that a chain write offers to its next block. */
  function Offered(data: seq<u8>): seq<u8> {
    data[..Min(|data|, BYTES_PER_BLOCK)]
  }

  function ChainWritten(st: Store, blocks: seq<u16>, data: seq<u8>): Store
    decreases |blocks|
  {
    if |blocks| == 0 || |data| == 0 then st
    else
      var n := WrittenCount(st, blocks[0], Offered(data));
      ChainWritten(Written(st, blocks[0], Offered(data)), blocks[1..], data[n..])
  }

  function ChainCount(st: Store, blocks: seq<u16>, data: seq<u8>): nat
    decreases |blocks|
  {
    if |blocks| == 0 || |data| == 0 then 0
    else
      var n := WrittenCount(st, blocks[0], Offered(data));
      n + ChainCount(Written(st, blocks[0], Offered(data)), blocks[1..], data[n..])
  }

  function ChainRead(st: Store, blocks: seq<u16>, room: nat): (out: seq<u8>)
    ensures |out| <= room
    decreases |blocks|
  {
    if |blocks| == 0 || room == 0 then []
    else
      var got := Read(st, blocks[0], room);
      if |got| < BYTES_PER_BLOCK then got else got + ChainRead(st, blocks[1..], room - |got|)
  }

  /**
   Absent blocks: a chain write passes over one and offers the same bytes to the next, a chain
   read ends at one.
   */
  lemma AbsentInChain(st: Store, blocks: seq<u16>, data: seq<u8>, room: nat)
    requires |blocks| > 0 && !Present(st, blocks[0])
    ensures ChainWritten(st, blocks, data) == ChainWritten(st, blocks[1..], data)
    ensures ChainCount(st, blocks, data) == ChainCount(st, blocks[1..], data)
    ensures ChainRead(st, blocks, room) == []
  {
    assert data[0..] == data;
  }

  /** A chain write touches nothing but the blocks it lists and the dirty flag, which it only sets. */
  lemma {:induction false} ChainWrittenRest(st: Store, blocks: seq<u16>, data: seq<u8>)
    ensures ChainWritten(st, blocks, data).(level1 := st.level1, dirty := st.dirty) == st
    ensures ChainWritten(st, blocks, data).dirty <==> st.dirty || ChainCount(st, blocks, data) > 0
    decreases |blocks|
  {
    hide WrittenBlock;
    if |blocks| > 0 && |data| > 0 {
      var n := WrittenCount(st, blocks[0], Offered(data));
      ChainWrittenRest(Written(st, blocks[0], Offered(data)), blocks[1..], data[n..]);
    }
  }

  /** A chain write has stored `done` bytes and is about to visit block b. */
  ghost predicate WroteSoFar(st0: Store, st: Store, blocks: seq<u16>, data: seq<u8>, b: nat, done: nat) {
    && b <= |blocks| && done <= |data|
    && ChainWritten(st, blocks[b..], data[done..]) == ChainWritten(st0, blocks, data)
    && done + ChainCount(st, blocks[b..], data[done..]) == ChainCount(st0, blocks, data)
  }

  lemma ChainWriteStart(st: Store, blocks: seq<u16>, data: seq<u8>)
    ensures WroteSoFar(st, st, blocks, data, 0, 0)
  {
    assert blocks[0..] == blocks && data[0..] == data;
  }

  /** The bytes that the loop passes to block b. */
  function Passed(data: seq<u8>, done: nat): seq<u8>
    requires done <= |data|
  {
    data[done..done + Min(BYTES_PER_BLOCK, |data| - done)]
  }

  /** One turn of the chain-write loop. */
  lemma ChainWriteStep(st0: Store, st: Store, blocks: seq<u16>, data: seq<u8>, b: nat, done: nat)
    requires WroteSoFar(st0, st, blocks, data, b, done) && b < |blocks| && done < |data|
    ensures WroteSoFar(st0, Written(st, blocks[b], Passed(data, done)), blocks, data, b + 1,
                       done + WrittenCount(st, blocks[b], Passed(data, done)))
  {
    var n := WrittenCount(st, blocks[b], Passed(data, done));
    assert Passed(data, done) == Offered(data[done..]);
    assert blocks[b..][1..] == blocks[b + 1..];
    assert data[done..][n..] == data[done + n..];
  }

  lemma ChainWriteEnd(st0: Store, st: Store, blocks: seq<u16>, data: seq<u8>, b: nat, done: nat)
    requires WroteSoFar(st0, st, blocks, data, b, done) && (b == |blocks| || done == |data|)
    ensures ChainWritten(st0, blocks, data) == st && ChainCount(st0, blocks, data) == done
  {
  }

  /** A chain read has returned got and is about to visit block b with some room left. */
  ghost predicate ReadSoFar(whole: seq<u8>, got: seq<u8>, st: Store, blocks: seq<u16>, b: nat, room: nat) {
    b <= |blocks| && whole == got + ChainRead(st, blocks[b..], room)
  }

  /** One turn of the chain-read loop; a short block ends the read. */
  lemma ChainReadStep(whole: seq<u8>, got: seq<u8>, st: Store, blocks: seq<u16>, b: nat, room: nat)
    requires b < |blocks| && room > 0 && ReadSoFar(whole, got, st, blocks, b, room)
    ensures |Read(st, blocks[b], room)| < BYTES_PER_BLOCK ==> whole == got + Read(st, blocks[b], room)
    ensures |Read(st, blocks[b], room)| >= BYTES_PER_BLOCK ==>
      ReadSoFar(whole, got + Read(st, blocks[b], room), st, blocks, b + 1, room - |Read(st, blocks[b], room)|)
  {
    var part := Read(st, blocks[b], room);
    assert blocks[b..][1..] == blocks[b + 1..];
    if |part| >= BYTES_PER_BLOCK {
      AppendAssociates(got, part, ChainRead(st, blocks[b + 1..], room - |part|));
    }
  }

  lemma ChainReadStart(st: Store, blocks: seq<u16>, room: nat)
    ensures ReadSoFar(ChainRead(st, blocks, room), [], st, blocks, 0, room)
  {
    assert blocks[0..] == blocks;
  }

  lemma ChainReadEnd(whole: seq<u8>, got: seq<u8>, st: Store, blocks: seq<u16>, b: nat, room: nat)
    requires ReadSoFar(whole, got, st, blocks, b, room) && (b == |blocks| || room == 0)
    ensures whole == got
  {
  }

  ghost predicate DistinctPresent(st: Store, blocks: seq<u16>) {
    && (forall b :: 0 <= b < |blocks| ==> Present(st, blocks[b]))
    && (forall b, c :: 0 <= b < c < |blocks| ==> blocks[b] != blocks[c])
  }

  /** The part of the data that ends up in block b of a chain. */
  function Piece(data: seq<u8>, b: nat): seq<u8>
    requires BYTES_PER_BLOCK * b < |data|
  {
    Offered(data[BYTES_PER_BLOCK * b..])
  }

  /** Block b of a chain after the write; blocks beyond the end of the data stay. */
  function BlockInChain(was: Option<Block>, data: seq<u8>, b: nat): Option<Block> {
    if was.Some? && BYTES_PER_BLOCK * b < |data| then Some(WrittenBlock(was.value, Piece(data, b))) else was
  }

  lemma PieceTail(data: seq<u8>, b: nat)
    requires BYTES_PER_BLOCK * (b + 1) < |data|
    ensures Piece(data[BYTES_PER_BLOCK..], b) == Piece(data, b + 1)
  {
    assert data[BYTES_PER_BLOCK..][BYTES_PER_BLOCK * b..] == data[BYTES_PER_BLOCK * (b + 1)..];
  }

  /**
   A chain write stores piece b of the data in block b, as far as the data and the blocks go,
   and leaves every other block as it was.
   */
  lemma {:induction false} ChainStores(st: Store, blocks: seq<u16>, data: seq<u8>)
    requires Shaped(st) && DistinctPresent(st, blocks)
    ensures ChainCount(st, blocks, data) == Min(|data|, BYTES_PER_BLOCK * |blocks|)
    ensures Shaped(ChainWritten(st, blocks, data))
    ensures forall b :: 0 <= b < |blocks| ==>
      ChainWritten(st, blocks, data).level1[blocks[b]] == BlockInChain(st.level1[blocks[b]], data, b)
    ensures forall i :: 0 <= i < LENS_COUNT && i !in blocks ==>
      ChainWritten(st, blocks, data).level1[i] == st.level1[i]
    decreases |blocks|
  {
    if |blocks| > 0 && |data| > 0 {
      var first, rest := blocks[0], blocks[1..];
      var n := Min(|data|, BYTES_PER_BLOCK);
      var st' := Written(st, first, Offered(data));
      var tail := data[n..];
      assert forall b :: 0 <= b < |rest| ==> rest[b] == blocks[b + 1];
      ChainStores(st', rest, tail);
      var done := ChainWritten(st, blocks, data);
      assert done == ChainWritten(st', rest, tail);
      assert first !in rest;
      assert Piece(data, 0) == Offered(data) by { assert data[0..] == data; }
      forall b | 0 <= b < |blocks|
        ensures done.level1[blocks[b]] == BlockInChain(st.level1[blocks[b]], data, b)
      {
        if b > 0 {
          assert blocks[b] == rest[b - 1];
          if BYTES_PER_BLOCK * b < |data| {
            PieceTail(data, b - 1);
          }
        }
      }
    }
  }

  /** The read that follows never gets past the first block: a full one yields 13273 bytes. */
  lemma ChainReadAfterWrite(st: Store, blocks: seq<u16>, data: seq<u8>)
    requires Shaped(st) && DistinctPresent(st, blocks) && |blocks| > 0
    ensures ChainRead(ChainWritten(st, blocks, data), blocks, |data|) == data[..Min(|data|, READABLE_BYTES)]
  {
    if |data| > 0 {
      ChainStores(st, blocks, data);
      var done, was := ChainWritten(st, blocks, data), st.level1[blocks[0]].value;
      assert data[BYTES_PER_BLOCK * 0..] == data;
      assert done.level1[blocks[0]] == Some(WrittenBlock(was, Offered(data)));
      ReadAfterWrite(was, Offered(data), |data|);
      OfferedReadable(data);
    }
  }

  lemma OfferedReadable(data: seq<u8>)
    requires |data| > 0
    ensures var p := Offered(data);
            var n := Min(|data|, 13 * Min(Used(|p|), READABLE_ENTRIES));
            n == Min(|data|, READABLE_BYTES) && Stored(p)[..n] == data[..n]
  {
    var p := Offered(data);
    StoredPrefix(p, Min(|data|, READABLE_BYTES));
  }

  /** A chain of any length carries exactly the messages that one block can return. */
  lemma ChainRoundTripIff(st: Store, blocks: seq<u16>, data: seq<u8>)
    requires Shaped(st) && DistinctPresent(st, blocks) && |blocks| > 0
    ensures ChainRead(ChainWritten(st, blocks, data), blocks, |data|) == data <==> |data| <= READABLE_BYTES
  {
    ChainReadAfterWrite(st, blocks, data);
  }

  // ---------------------------------------------------------------- clearing

  function ClearedOne(st: Store, idx: u16): Store {
    if Present(st, idx) then
      st.(level1 := st.level1[idx := Some(FreedBlock(st.level1[idx].value))])
    else st
  }

  function ClearedEach(st: Store, blocks: seq<u16>): Store
    decreases |blocks|
  {
    if |blocks| == 0 then st
    else ClearedOne(ClearedEach(st, blocks[..|blocks| - 1]), blocks[|blocks| - 1])
  }

  function Cleared(st: Store, blocks: seq<u16>): Store {
    ClearedEach(st, blocks).(dirty := true)
  }

  /** Clearing frees exactly the listed blocks that exist, however often they are listed. */
  lemma {:induction false} ClearedEachAt(st: Store, blocks: seq<u16>, i: u16)
    requires Shaped(st) && i < LENS_COUNT
    ensures Shaped(ClearedEach(st, blocks)) && ClearedEach(st, blocks).(level1 := st.level1) == st
    ensures ClearedEach(st, blocks).level1[i]
         == if Present(st, i) && i in blocks then Some(FreedBlock(st.level1[i].value)) else st.level1[i]
    decreases |blocks|
  {
    hide FreedBlock;
    if |blocks| > 0 {
      var n := |blocks| - 1;
      ClearedEachAt(st, blocks[..n], i);
      assert blocks == blocks[..n] + [blocks[n]];
      if Present(st, i) {
        FreedTwice(st.level1[i].value);
      }
    }
  }

  /**
   What clear_blocks does: the listed present blocks lose their chains and keep their payloads,
   every other block, the root, the seed and the keys stay, and the topology is dirty.
   */
  lemma ClearedBlocks(st: Store, blocks: seq<u16>, i: u16)
    requires Shaped(st) && i < LENS_COUNT
    ensures Cleared(st, blocks).(level1 := st.level1, dirty := st.dirty) == st && Cleared(st, blocks).dirty
    ensures |Cleared(st, blocks).level1| == LENS_COUNT
    ensures !Present(st, i) || i !in blocks ==> Cleared(st, blocks).level1[i] == st.level1[i]
    ensures Present(st, i) && i in blocks ==>
      var was, now := st.level1[i].value, Cleared(st, blocks).level1[i];
      now.Some? && forall e :: 0 <= e < 1024 ==>
        && Payload(now.value[e]) == Payload(was[e]) && Route(now.value[e]) == 0x3FD
        && CrcValid(now.value[e])
  {
    hide FreedBlock, AllFree, Payload, Route, CrcValid;
    ClearedEachAt(st, blocks, i);
    if Present(st, i) {
      FreedWellLinked(st.level1[i].value);
    }
  }

  // ---------------------------------------------------------------- images

  function Tag(s: Value128): u64 {
    Xor64(Xor64(s.hi, s.lo), 0xA5A5_A5A5_A5A5_A5A5)
  }

  const VERSION: u64 := 4

  function Header(s: Value128): (b: seq<u8>)
    ensures |b| == 16
  {
    LeBytes(Tag(s), 8) + LeBytes(VERSION, 8)
  }

  function BlockBytes(block: Option<Block>): (b: seq<u8>)
    ensures |b| == BLOCK_SIZE_BYTES
  {
    if block.Some? then Serialized(block.value) else Zeros(BLOCK_SIZE_BYTES)
  }

  /** Block number j of an image: the root, then the blocks of level 1. */
  function NthBlock(st: Store, j: nat): Option<Block>
    requires j <= |st.level1|
  {
    if j == 0 then Some(st.root) else st.level1[j - 1]
  }

  function Sealed(st: Store, j: nat): (b: seq<u8>)
    requires j <= |st.level1| && j < TWO64
    ensures |b| == BLOCK_SIZE_BYTES
  {
    Obfuscated(BlockBytes(NthBlock(st, j)), st.seed, j)
  }

  /** The header and the first n sealed blocks. */
  function ImagePrefix(st: Store, n: nat): (file: seq<u8>)
    requires n <= |st.level1| + 1 && n <= TWO64
    ensures |file| == 16 + BLOCK_SIZE_BYTES * n
    decreases n, st
  {
    if n == 0 then Header(st.seed) else ImagePrefix(st, n - 1) + Sealed(st, n - 1)
  }

  lemma ImagePrefixStart(st: Store)
    ensures ImagePrefix(st, 0) == Header(st.seed)
  {
  }

  lemma ImagePrefixStep(st: Store, n: nat)
    requires n <= |st.level1| && n < TWO64
    ensures ImagePrefix(st, n + 1) == ImagePrefix(st, n) + Sealed(st, n)
  {
  }

  function Image(st: Store): seq<u8>
    requires |st.level1| == LENS_COUNT
  {
    ImagePrefix(st, LENS_COUNT + 1)
  }

  /** The header of an image, read back: the tag of the seed, then the version. */
  lemma ImageHeader(st: Store)
    requires Shaped(st)
    ensures |Image(st)| == 16 + 1025 * 16384
    ensures FromLe(Cut(Image(st), 0, 8)) == Xor(Xor(st.seed.hi, st.seed.lo), 0xA5A5_A5A5_A5A5_A5A5)
    ensures FromLe(Cut(Image(st), 8, 8)) == 4
  {
    hide ImagePrefix, LeBytes, FromLe, Cut, Xor;
    var tag, ver := LeBytes(Tag(st.seed), 8), LeBytes(VERSION, 8);
    PrefixHeader(st, LENS_COUNT + 1);
    CutCut(Image(st), 0, 16, 0, 8);
    CutCut(Image(st), 0, 16, 8, 8);
    CutLeft(tag, ver, 0, 8);
    CutWhole(tag);
    CutRight(tag, ver);
    Pow2Values();
    FromLeOfLeBytes(Tag(st.seed), 8);
    FromLeOfLeBytes(VERSION, 8);
  }

  lemma {:induction false} PrefixHeader(st: Store, n: nat)
    requires n <= |st.level1| + 1 && n <= TWO64
    ensures Cut(ImagePrefix(st, n), 0, 16) == Header(st.seed)
    decreases n
  {
    hide ImagePrefix, Sealed, Header;
    if n == 0 {
      ImagePrefixStart(st);
    } else {
      PrefixHeader(st, n - 1);
      ImagePrefixStep(st, n - 1);
      CutLeft(ImagePrefix(st, n - 1), Sealed(st, n - 1), 0, 16);
    }
  }

  /**
   Byte k of block j of an image: the root is block 0, level-1 block i is block i + 1 and reads as
   zeros if it is null; byte k is masked with byte k % 8 of keystream word k / 8 of block j.
   */
  lemma ImageByte(st: Store, j: nat, k: nat)
    requires Shaped(st) && j <= 1024 && k < 16384
    ensures |Image(st)| == 16 + 1025 * 16384
    ensures var plain :=
      if j == 0 then Serialized(st.root)[k]
      else if st.level1[j - 1].Some? then Serialized(st.level1[j - 1].value)[k]
      else 0;
      Image(st)[16 + 16384 * j + k]
        == Xor(plain, Shr(Stirred(KeyStart(st.seed, j), 13, 17, k / 8 + 1).lo, 8 * (k % 8)) % 0x100)
  {
    hide ImagePrefix, Serialized, Stirred, KeyStart, Shr, Xor, LeBytes;
    PrefixCut(st, LENS_COUNT + 1, j);
    CutAt(Image(st), 16 + BLOCK_SIZE_BYTES * j, BLOCK_SIZE_BYTES, k);
    MaskedByte(BlockBytes(NthBlock(st, j)), st.seed, j, k / 8, k % 8);
  }

  function WholeBlocks(file: seq<u8>): nat {
    if |file| < 16 then 0 else (|file| - 16) / BLOCK_SIZE_BYTES
  }

  function FileBlock(file: seq<u8>, j: nat): (b: seq<u8>)
    requires j < WholeBlocks(file)
    ensures |b| == BLOCK_SIZE_BYTES
  {
    Cut(file, 16 + BLOCK_SIZE_BYTES * j, BLOCK_SIZE_BYTES)
  }

  function Opened(file: seq<u8>, s: Value128, j: nat): Block
    requires j < WholeBlocks(file) && j < TWO64
  {
    Deserialized(Obfuscated(FileBlock(file, j), s, j))
  }

  predicate TagMatches(file: seq<u8>, s: Value128) {
    |file| >= 16 && Cut(file, 0, 8) == LeBytes(Tag(s), 8)
  }

  /** Level-1 blocks that a load gets out of a file. */
  function Loadable(file: seq<u8>): nat {
    if WholeBlocks(file) == 0 then 0 else Min(WholeBlocks(file) - 1, LENS_COUNT)
  }

  predicate LoadSucceeds(file: seq<u8>, s: Value128) {
    TagMatches(file, s) && WholeBlocks(file) > 0 && Loadable(file) == LENS_COUNT
  }

  /** As many blocks as the file holds are replaced. */
  function LoadedBlocks(was: seq<Option<Block>>, file: seq<u8>, s: Value128): (now: seq<Option<Block>>)
    requires |was| == LENS_COUNT
    ensures |now| == LENS_COUNT
  {
    seq(LENS_COUNT, i requires 0 <= i < LENS_COUNT =>
      if i < Loadable(file) then Some(Opened(file, s, i + 1)) else was[i])
  }

  /** A pass that stops where the file ends has replaced all it can. */
  lemma LoadedSoFar(now: seq<Option<Block>>, was: seq<Option<Block>>, file: seq<u8>, s: Value128, i: nat)
    requires |was| == LENS_COUNT && i == Loadable(file)
    requires Progress(now, was, LoadedBlocks(was, file, s), i)
    ensures now == LoadedBlocks(was, file, s)
  {
    hide Opened;
    forall k | 0 <= k < LENS_COUNT
      ensures now[k] == LoadedBlocks(was, file, s)[k]
    {
    }
  }

  /** The state after a load, whether or not it succeeds: the seed is always replaced. */
  function Loaded(st: Store, file: seq<u8>, s: Value128): (r: Store)
    requires Shaped(st)
    ensures Shaped(r)
  {
    var rekeyed := st.(seed := s, lensKeys := LensKeys(s));
    if !TagMatches(file, s) || WholeBlocks(file) == 0 then rekeyed
    else
      rekeyed.(
        root := Opened(file, s, 0),
        level1 := LoadedBlocks(st.level1, file, s),
        dirty := st.dirty && Loadable(file) < LENS_COUNT)
  }

  /** Sealed block j sits in its place in the file. */
  ghost predicate HoldsSealed(file: seq<u8>, st: Store, j: nat)
    requires j <= |st.level1| && j < TWO64
  {
    && 16 + BLOCK_SIZE_BYTES * j + BLOCK_SIZE_BYTES <= |file|
    && Cut(file, 16 + BLOCK_SIZE_BYTES * j, BLOCK_SIZE_BYTES) == Sealed(st, j)
  }

  lemma StillHolds(file: seq<u8>, more: seq<u8>, st: Store, j: nat)
    requires j <= |st.level1| && j < TWO64 && HoldsSealed(file, st, j)
    ensures HoldsSealed(file + more, st, j)
  {
    CutLeft(file, more, 16 + BLOCK_SIZE_BYTES * j, BLOCK_SIZE_BYTES);
  }

  lemma NowHolds(file: seq<u8>, st: Store, j: nat)
    requires j <= |st.level1| && j < TWO64 && |file| == 16 + BLOCK_SIZE_BYTES * j
    ensures HoldsSealed(file + Sealed(st, j), st, j)
  {
    CutRight(file, Sealed(st, j));
  }

  lemma {:induction false} PrefixCut(st: Store, n: nat, j: nat)
    requires j < n <= |st.level1| + 1 && n <= TWO64
    ensures HoldsSealed(ImagePrefix(st, n), st, j)
    decreases n
  {
    hide ImagePrefix, Sealed, HoldsSealed;
    ImagePrefixStep(st, n - 1);
    if j == n - 1 {
      NowHolds(ImagePrefix(st, n - 1), st, j);
    } else {
      PrefixCut(st, n - 1, j);
      StillHolds(ImagePrefix(st, n - 1), Sealed(st, n - 1), st, j);
    }
  }

  lemma HeaderTag(s: Value128)
    ensures Cut(Header(s), 0, 8) == LeBytes(Tag(s), 8)
  {
    hide LeBytes, Tag;
    CutLeft(LeBytes(Tag(s), 8), LeBytes(VERSION, 8), 0, 8);
  }

  lemma {:induction false} PrefixTag(st: Store, n: nat)
    requires n <= |st.level1| + 1 && n <= TWO64
    ensures Cut(ImagePrefix(st, n), 0, 8) == LeBytes(Tag(st.seed), 8)
    decreases n
  {
    hide ImagePrefix, Sealed, LeBytes, Tag;
    if n == 0 {
      HeaderTag(st.seed);
      ImagePrefixStart(st);
    } else {
      PrefixTag(st, n - 1);
      ImagePrefixStep(st, n - 1);
      CutLeft(ImagePrefix(st, n - 1), Sealed(st, n - 1), 0, 8);
    }
  }

  lemma ImageFacts(st: Store)
    requires Shaped(st)
    ensures WholeBlocks(Image(st)) == LENS_COUNT + 1
    ensures Cut(Image(st), 0, 8) == LeBytes(Tag(st.seed), 8)
    ensures forall j :: 0 <= j <= LENS_COUNT ==> FileBlock(Image(st), j) == Sealed(st, j)
  {
    hide ImagePrefix, Sealed, LeBytes, Tag;
    PrefixTag(st, LENS_COUNT + 1);
    forall j | 0 <= j <= LENS_COUNT
      ensures FileBlock(Image(st), j) == Sealed(st, j)
    {
      PrefixCut(st, LENS_COUNT + 1, j);
    }
  }

  /** What a saved block comes back as: a null pointer becomes a block of zero atoms. */
  function Restored(block: Option<Block>): Block {
    if block.Some? then block.value else Deserialized(Zeros(BLOCK_SIZE_BYTES))
  }

  lemma OpenedSealed(st: Store, j: nat)
    requires Shaped(st) && j <= LENS_COUNT
    ensures WholeBlocks(Image(st)) == LENS_COUNT + 1
    ensures Opened(Image(st), st.seed, j) == Restored(NthBlock(st, j))
  {
    ImageFacts(st);
    ObfuscatedTwice(BlockBytes(NthBlock(st, j)), st.seed, j);
    if NthBlock(st, j).Some? {
      DeserializedSerialized(NthBlock(st, j).value);
    }
  }

  lemma AllOpened(st: Store)
    requires Shaped(st)
    ensures WholeBlocks(Image(st)) == LENS_COUNT + 1
    ensures forall j :: 0 <= j <= LENS_COUNT ==>
      Opened(Image(st), st.seed, j) == Restored(NthBlock(st, j))
  {
    ImageFacts(st);
    forall j | 0 <= j <= LENS_COUNT
      ensures Opened(Image(st), st.seed, j) == Restored(NthBlock(st, j))
    {
      OpenedSealed(st, j);
    }
  }

  function RestoredBlocks(st: Store): seq<Option<Block>> {
    seq(|st.level1|, i requires 0 <= i < |st.level1| => Some(Restored(st.level1[i])))
  }

  lemma LoadedImageBlocks(st: Store, was: seq<Option<Block>>)
    requires Shaped(st) && |was| == LENS_COUNT
    ensures LoadedBlocks(was, Image(st), st.seed) == RestoredBlocks(st)
  {
    hide Image, Opened, Restored;
    AllOpened(st);
    forall i | 0 <= i < LENS_COUNT
      ensures LoadedBlocks(was, Image(st), st.seed)[i] == RestoredBlocks(st)[i]
    {
      assert NthBlock(st, i + 1) == st.level1[i];
    }
  }

  /** Loading a saved image into any topology: seed, keys, root and every block come back. */
  lemma SaveLoad(st: Store, other: Store)
    requires Shaped(st) && Shaped(other) && st.lensKeys == LensKeys(st.seed)
    ensures LoadSucceeds(Image(st), st.seed)
    ensures Loaded(other, Image(st), st.seed) == st.(level1 := RestoredBlocks(st), dirty := false)
  {
    ImageFacts(st);
    OpenedSealed(st, 0);
    LoadedImageBlocks(st, other.level1);
  }

  /** For an initialized topology nothing is lost, and the loaded one is clean. */
  lemma SaveLoadRoundTrip(st: Store, other: Store)
    requires Shaped(st) && Shaped(other) && st.lensKeys == LensKeys(st.seed)
    requires forall i :: 0 <= i < LENS_COUNT ==> st.level1[i].Some?
    ensures LoadSucceeds(Image(st), st.seed)
    ensures Loaded(other, Image(st), st.seed) == st.(dirty := false)
  {
    hide Image, LoadSucceeds, Loaded, LensKeys;
    SaveLoad(st, other);
    assert RestoredBlocks(st) == st.level1;
  }

  /** A seed opens an image exactly when its tag agrees; otherwise no block changes. */
  lemma LoadOpensIffTag(st: Store, other: Store, s: Value128)
    requires Shaped(st) && Shaped(other)
    ensures LoadSucceeds(Image(st), s) <==> Tag(s) == Tag(st.seed)
    ensures Tag(s) != Tag(st.seed) ==>
      Loaded(other, Image(st), s) == other.(seed := s, lensKeys := LensKeys(s))
  {
    ImageFacts(st);
    Pow2Values();
    FromLeOfLeBytes(Tag(s), 8);
    FromLeOfLeBytes(Tag(st.seed), 8);
  }

  /** The tag does not identify the seed: swapping its halves keeps the tag. */
  lemma SwappedSeedOpens(st: Store)
    requires Shaped(st)
    ensures LoadSucceeds(Image(st), Value128(st.seed.lo, st.seed.hi))
  {
    XorCommutes(st.seed.hi, st.seed.lo);
    LoadOpensIffTag(st, st, Value128(st.seed.lo, st.seed.hi));
  }

  /** An image cut short anywhere does not load. */
  lemma TruncatedFails(st: Store, s: Value128)
    requires Shaped(st)
    ensures forall n :: 0 <= n < |Image(st)| ==> !LoadSucceeds(Image(st)[..n], s)
  {
  }

  /**
   Loading the first n bytes of an image under its seed: nothing but the seed and keys change
   below one whole block; from there on the root and the whole level-1 blocks that are left come
   back, the other blocks stay, and the topology keeps its dirty flag.
   */
  lemma TruncatedLoad(st: Store, other: Store, n: nat, i: nat)
    requires Shaped(st) && Shaped(other) && n < 16 + 1025 * 16384 && i < 1024
    ensures n <= |Image(st)|
    ensures var r := Loaded(other, Image(st)[..n], st.seed);
      && r.seed == st.seed && r.lensKeys == LensKeys(st.seed) && r.dirty == other.dirty
      && r.root == (if n < 16 + 16384 then other.root else st.root)
      && r.level1[i] == if 16 + 16384 * (i + 2) <= n then Some(Restored(st.level1[i])) else other.level1[i]
  {
    hide Restored, LensKeys, Image, Opened, TagMatches, WholeBlocks, Loaded, Obfuscated, Serialized, Cut, Header, Tag;
    ImageHeader(st);
    var file := Image(st)[..n];
    LoadedParts(other, file, st.seed, i);
    TruncatedTag(st, n);
    BlocksInFile(file, n, i);
    if WholeBlocks(file) > 0 {
      OpenedPrefix(st, n, 0);
      RestoredRoot(st);
    }
    if WholeBlocks(file) > i + 1 {
      OpenedPrefix(st, n, i + 1);
    }
  }

  lemma LoadedParts(st: Store, file: seq<u8>, s: Value128, i: nat)
    requires Shaped(st) && i < 1024
    ensures var r := Loaded(st, file, s);
      && r.seed == s && r.lensKeys == LensKeys(s)
      && (!TagMatches(file, s) || WholeBlocks(file) == 0 ==>
            r.dirty == st.dirty && r.root == st.root && r.level1[i] == st.level1[i])
      && (TagMatches(file, s) && WholeBlocks(file) > 0 ==>
            && r.dirty == (st.dirty && WholeBlocks(file) < 1025) && r.root == Opened(file, s, 0)
            && r.level1[i] == if i + 1 < WholeBlocks(file) then Some(Opened(file, s, i + 1)) else st.level1[i])
  {
    hide LensKeys, Opened, TagMatches, WholeBlocks;
    if WholeBlocks(file) > 0 {
      LoadedBlockAt(st.level1, file, s, i);
    }
  }

  lemma TruncatedTag(st: Store, n: nat)
    requires Shaped(st) && n <= |Image(st)|
    ensures TagMatches(Image(st)[..n], st.seed) <==> n >= 16
  {
    hide Image, Tag, LeBytes;
    ImageFacts(st);
    if n >= 16 {
      assert Cut(Image(st)[..n], 0, 8) == Cut(Image(st), 0, 8);
    }
  }

  lemma RestoredRoot(st: Store)
    requires Shaped(st)
    ensures Restored(NthBlock(st, 0)) == st.root
  {
  }

  lemma BlocksInFile(file: seq<u8>, n: nat, i: nat)
    requires |file| == n
    ensures WholeBlocks(file) > 0 <==> n >= 16 + 16384
    ensures i + 1 < WholeBlocks(file) <==> 16 + 16384 * (i + 2) <= n
    ensures WholeBlocks(file) < 1025 <==> n < 16 + 1025 * 16384
  {
  }

  lemma OpenedPrefix(st: Store, n: nat, j: nat)
    requires Shaped(st) && n <= |Image(st)| && j < WholeBlocks(Image(st)[..n]) && j <= LENS_COUNT
    ensures Opened(Image(st)[..n], st.seed, j) == Restored(NthBlock(st, j))
  {
    hide Image, Restored, Deserialized, Obfuscated, WholeBlocks;
    OpenedSealed(st, j);
    BlockOfPrefix(Image(st), n, j);
  }

  lemma BlockOfPrefix(file: seq<u8>, n: nat, j: nat)
    requires n <= |file| && j < WholeBlocks(file[..n])
    ensures j < WholeBlocks(file) && FileBlock(file[..n], j) == FileBlock(file, j)
  {
    assert file == file[..n] + file[n..];
    CutLeft(file[..n], file[n..], 16 + BLOCK_SIZE_BYTES * j, BLOCK_SIZE_BYTES);
  }

  lemma LoadedBlockAt(was: seq<Option<Block>>, file: seq<u8>, s: Value128, i: nat)
    requires |was| == LENS_COUNT && i < LENS_COUNT
    ensures LoadedBlocks(was, file, s)[i] == if i < Loadable(file) then Some(Opened(file, s, i + 1)) else was[i]
  {
    hide Opened;
  }

  lemma SameTag(file: seq<u8>, ver: seq<u8>)
    requires |file| >= 16 && |ver| == 8
    ensures Cut(file[..8] + ver + file[16..], 0, 8) == Cut(file, 0, 8)
  {
  }

  lemma BehindVersion(file: seq<u8>, ver: seq<u8>, at: nat, n: nat)
    requires |file| >= 16 && |ver| == 8 && 16 <= at && at + n <= |file|
    ensures Cut(file[..8] + ver + file[16..], at, n) == Cut(file, at, n)
  {
  }

  lemma SameOpened(file: seq<u8>, ver: seq<u8>, s: Value128, j: nat)
    requires |file| >= 16 && |ver| == 8 && j < WholeBlocks(file) && j < TWO64
    ensures |file[..8] + ver + file[16..]| == |file|
    ensures Opened(file[..8] + ver + file[16..], s, j) == Opened(file, s, j)
  {
    hide Deserialized, Obfuscated, Cut;
    BehindVersion(file, ver, 16 + BLOCK_SIZE_BYTES * j, BLOCK_SIZE_BYTES);
  }

  /** The version field is not looked at: any eight bytes there load the same. */
  lemma VersionIgnored(st: Store, s: Value128, file: seq<u8>, ver: seq<u8>)
    requires Shaped(st) && |file| >= 16 && |ver| == 8
    ensures Loaded(st, file[..8] + ver + file[16..], s) == Loaded(st, file, s)
    ensures LoadSucceeds(file[..8] + ver + file[16..], s) <==> LoadSucceeds(file, s)
  {
    hide LensKeys, Opened, Tag, Cut, LoadedBlocks, Serialized;
    var other := file[..8] + ver + file[16..];
    SameTag(file, ver);
    if WholeBlocks(file) > 0 {
      SameOpened(file, ver, s, 0);
    }
    forall i | 0 <= i < LENS_COUNT
      ensures LoadedBlocks(st.level1, other, s)[i] == LoadedBlocks(st.level1, file, s)[i]
    {
      LoadedBlockAt(st.level1, other, s, i);
      LoadedBlockAt(st.level1, file, s, i);
      if i < Loadable(file) {
        SameOpened(file, ver, s, i + 1);
      }
    }
  }

  // ---------------------------------------------------------------- runs

  datatype Op =
    | Write(idx: u16, data: seq<u8>)
    | WriteChain(blocks: seq<u16>, data: seq<u8>)
    | Clear(blocks: seq<u16>)
    | SaveAndLoad

  function Apply(st: Store, op: Op): Store
    requires Shaped(st)
  {
    match op
    case Write(idx, data) => Written(st, idx, data)
    case WriteChain(blocks, data) => ChainWritten(st, blocks, data)
    case Clear(blocks) => Cleared(st, blocks)
    case SaveAndLoad => Loaded(st, Image(st), st.seed)
  }

  ghost predicate Sound(st: Store) {
    && Shaped(st)
    && st.lensKeys == LensKeys(st.seed)
    && WellLinked(st.root)
    && forall i :: 0 <= i < LENS_COUNT ==> st.level1[i].Some? && WellLinked(st.level1[i].value)
  }

  /** After initialize every block exists, and no entry anywhere is in a chain. */
  lemma InitializedSound(s: Value128)
    ensures Sound(Initialized(s)) && AllFree(Initialized(s).root)
    ensures forall i :: 0 <= i < LENS_COUNT ==> AllFree(Initialized(s).level1[i].value)
  {
    hide AllFree, WellLinked, FreedBlock, ExpandedBlock, LensKeys;
    var st := Initialized(s);
    FreedWellLinked(seq(ENTRIES_PER_BLOCK, _ => Value128(0, 0)));
    forall i | 0 <= i < LENS_COUNT
      ensures WellLinked(st.level1[i].value) && AllFree(st.level1[i].value)
    {
      ExpandedWellLinked(LensKeys(s)[i]);
    }
  }

  lemma ExpandedWellLinked(key: Value128)
    ensures WellLinked(ExpandedBlock(key)) && AllFree(ExpandedBlock(key))
  {
    hide PackRoute, Route, CrcValid, Stirred;
    forall e | 0 <= e < ENTRIES_PER_BLOCK
      ensures CrcValid(ExpandedBlock(key)[e]) && Route(ExpandedBlock(key)[e]) == FREE_ROUTE
    {
      PackRouteFields(Stirred(key, 13, 17, e + 1), FREE_ROUTE);
    }
  }

  lemma WrittenSound(st: Store, idx: u16, data: seq<u8>)
    requires Sound(st)
    ensures Sound(Written(st, idx, data))
  {
    if Present(st, idx) {
      WrittenWellLinked(st.level1[idx].value, data);
    }
  }

  lemma {:induction false} ChainWrittenSound(st: Store, blocks: seq<u16>, data: seq<u8>)
    requires Sound(st)
    ensures Sound(ChainWritten(st, blocks, data))
    decreases |blocks|
  {
    if |blocks| > 0 && |data| > 0 {
      WrittenSound(st, blocks[0], Offered(data));
      ChainWrittenSound(Written(st, blocks[0], Offered(data)), blocks[1..],
                        data[WrittenCount(st, blocks[0], Offered(data))..]);
    }
  }

  lemma {:induction false} ClearedEachSound(st: Store, blocks: seq<u16>)
    requires Sound(st)
    ensures Sound(ClearedEach(st, blocks))
    decreases |blocks|
  {
    if |blocks| > 0 {
      var init, last := ClearedEach(st, blocks[..|blocks| - 1]), blocks[|blocks| - 1];
      ClearedEachSound(st, blocks[..|blocks| - 1]);
      if Present(init, last) {
        FreedWellLinked(init.level1[last].value);
      }
    }
  }

  lemma ApplySound(st: Store, op: Op)
    requires Sound(st)
    ensures Sound(Apply(st, op))
  {
    hide Image, Loaded, LensKeys, WellLinked, ChainWritten, Written;
    match op
    case Write(idx, data) => WrittenSound(st, idx, data);
    case WriteChain(blocks, data) => ChainWrittenSound(st, blocks, data);
    case Clear(blocks) => ClearedEachSound(st, blocks);
    case SaveAndLoad => SaveLoadRoundTrip(st, st);
  }

  ghost function Run(st: Store, ops: seq<Op>): (r: Store)
    requires Sound(st)
    ensures Sound(r)
    decreases |ops|
  {
    if |ops| == 0 then st
    else
      ApplySound(st, ops[0]);
      Run(Apply(st, ops[0]), ops[1..])
  }

  /** After initialize, no run of operations ever leaves a bad check or a stray route behind. */
  lemma RunSound(s: Value128, ops: seq<Op>, i: nat, e: nat)
    requires i < LENS_COUNT && e < ENTRIES_PER_BLOCK
    ensures Sound(Initialized(s))
    ensures var block := Run(Initialized(s), ops).level1[i];
            block.Some? && CrcValid(block.value[e]) &&
            (Stops(Route(block.value[e])) || Route(block.value[e]) == e + 1)
  {
    InitializedSound(s);
  }
}
