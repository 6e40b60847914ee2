/** The topology object: blocks owned through pointers and updated in place. */
module BmtTopology {
  import opened Bits
  import opened Memory
  import opened Mixing
  import opened BlockAtom
  import opened BlockImage
  import opened BlockStore
  import opened StoreModel

  class Topology {
    var seed: Value128
    const lensKeys: array<Value128>
    const root: array<Value128>
    var level1: seq<array?<Value128>>
    var dirty: bool

    /** The blocks that level1 points to. */
    ghost function Owned(): set<object>
      reads this
    {
      set i | 0 <= i < |level1| && level1[i] != null :: level1[i]
    }

    /** Every pointer is null or the only one to a full-sized block. */
    ghost predicate Valid()
      reads this, Owned()
    {
      && |level1| == lensKeys.Length == LENS_COUNT
      && root.Length == ENTRIES_PER_BLOCK
      && root != lensKeys
      && (forall i :: 0 <= i < |level1| && level1[i] != null ==>
            level1[i].Length == ENTRIES_PER_BLOCK && level1[i] != root && level1[i] != lensKeys)
      && (forall i, j :: 0 <= i < j < |level1| && level1[i] != null ==> level1[i] != level1[j])
    }

    ghost function BlockView(i: nat): Option<Block>
      requires Valid() && i < |level1|
      reads this, Owned()
    {
      if level1[i] == null then None else Some(level1[i][..])
    }

    ghost function View(): (st: Store)
      requires Valid()
      reads this, lensKeys, root, Owned()
      ensures Shaped(st)
    {
      Store(seed, lensKeys[..], root[..],
            seq(LENS_COUNT, i requires 0 <= i < LENS_COUNT && Valid() reads this, Owned() => BlockView(i)),
            dirty)
    }

    constructor ()
      ensures Valid() && fresh(lensKeys) && fresh(root) && Owned() == {}
      ensures forall i :: 0 <= i < LENS_COUNT ==> View().level1[i] == None
      ensures View().root == FreshBlock() && !View().dirty
    {
      lensKeys := new Value128[LENS_COUNT](_ => Value128(0, 0));
      root := new Value128[ENTRIES_PER_BLOCK](_ => PackRoute(Value128(0, 0), FREE_ROUTE));
      level1 := seq(LENS_COUNT, _ => null);
      seed := Value128(0, 0);
      dirty := false;
    }

    /** write_block_data: an absent block or an index out of range takes nothing. */
    method WriteBlockData(idx: u16, data: seq<u8>) returns (written: nat)
      requires Valid()
      modifies this`dirty, Owned()
      ensures Valid() && level1 == old(level1)
      ensures View() == Written(old(View()), idx, data)
      ensures written == WrittenCount(old(View()), idx, data)
    {
      if idx >= LENS_COUNT || level1[idx] == null {
        return 0;
      }
      ghost var was := View();
      written := FillBlock(level1[idx], data);
      dirty := true;
      assert View().level1 == Written(was, idx, data).level1;
    }

    /** read_block_data into part of an output buffer. */
    method ReadBlockData(idx: u16, out: array<u8>, start: nat, maxLen: nat) returns (total: nat)
      requires Valid() && start + maxLen <= out.Length
      modifies out
      ensures Valid() && View() == old(View())
      ensures total == |Read(old(View()), idx, maxLen)|
      ensures out[..] == Spliced(old(out[..]), start, Read(old(View()), idx, maxLen))
    {
      if idx >= LENS_COUNT || level1[idx] == null {
        SplicedNothing(out[..], start);
        return 0;
      }
      total := FollowChain(level1[idx], out, start, maxLen);
    }

    /** write_chain over a list of blocks. */
    method WriteChain(blocks: seq<u16>, data: seq<u8>) returns (written: nat)
      requires Valid()
      modifies this`dirty, Owned()
      ensures Valid() && level1 == old(level1)
      ensures View() == ChainWritten(old(View()), blocks, data)
      ensures written == ChainCount(old(View()), blocks, data)
    {
      ghost var st0 := View();
      ChainWriteStart(st0, blocks, data);
      written := 0;
      var b := 0;
      while b < |blocks| && written < |data|
        invariant 0 <= b <= |blocks| && written <= |data|
        invariant Valid() && level1 == old(level1)
        invariant WroteSoFar(st0, View(), blocks, data, b, written)
        decreases |blocks| - b
      {
        ChainWriteStep(st0, View(), blocks, data, b, written);
        var toWrite := Min(BYTES_PER_BLOCK, |data| - written);
        assert data[written..written + toWrite] == Passed(data, written);
        var n := WriteBlockData(blocks[b], data[written..written + toWrite]);
        written := written + n;
        b := b + 1;
      }
      ChainWriteEnd(st0, View(), blocks, data, b, written);
    }

    /** read_chain over a list of blocks. */
    method ReadChain(blocks: seq<u16>, out: array<u8>, maxLen: nat) returns (total: nat)
      requires Valid() && maxLen <= out.Length
      modifies out
      ensures Valid() && View() == old(View())
      ensures total == |ChainRead(old(View()), blocks, maxLen)|
      ensures out[..] == Spliced(old(out[..]), 0, ChainRead(old(View()), blocks, maxLen))
    {
      hide ChainRead, Read, Spliced;
      ghost var st, was, whole := View(), out[..], ChainRead(View(), blocks, maxLen);
      ghost var got: seq<u8> := [];
      SplicedNothing(was, 0);
      ChainReadStart(st, blocks, maxLen);
      total := 0;
      var b := 0;
      while b < |blocks| && total < maxLen
        invariant 0 <= b <= |blocks| && total == |got| <= maxLen
        invariant Valid() && View() == st
        invariant ReadSoFar(whole, got, st, blocks, b, maxLen - total)
        invariant out[..] == Spliced(was, 0, got)
        decreases |blocks| - b
      {
        var r := ReadTurn(blocks, b, out, total, maxLen, whole, got, was);
        got := got + Read(st, blocks[b], maxLen - total);
        total := total + r;
        if r < BYTES_PER_BLOCK {
          return;
        }
        b := b + 1;
      }
      ChainReadEnd(whole, got, st, blocks, b, maxLen - total);
    }

    /** One turn of read_chain: appends a block to what has been read. */
    method ReadTurn(blocks: seq<u16>, b: nat, out: array<u8>, total: nat, maxLen: nat,
                    ghost whole: seq<u8>, ghost got: seq<u8>, ghost was: seq<u8>) returns (r: nat)
      requires Valid() && maxLen <= out.Length == |was| && b < |blocks| && total == |got| < maxLen
      requires ReadSoFar(whole, got, View(), blocks, b, maxLen - total)
      requires out[..] == Spliced(was, 0, got)
      modifies out
      ensures Valid() && View() == old(View())
      ensures r == |Read(View(), blocks[b], maxLen - total)|
      ensures out[..] == Spliced(was, 0, got + Read(View(), blocks[b], maxLen - total))
      ensures r < BYTES_PER_BLOCK ==> whole == got + Read(View(), blocks[b], maxLen - total)
      ensures r >= BYTES_PER_BLOCK ==>
        ReadSoFar(whole, got + Read(View(), blocks[b], maxLen - total), View(), blocks, b + 1, maxLen - total - r)
    {
      ChainReadStep(whole, got, View(), blocks, b, maxLen - total);
      SplicedTwice(was, 0, got, Read(View(), blocks[b], maxLen - total));
      r := ReadBlockData(blocks[b], out, total, maxLen - total);
    }

    /** The inner loop of clear_blocks. */
    method FreeEntries(block: array<Value128>)
      modifies block
      ensures block[..] == FreedBlock(old(block[..]))
    {
      ghost var was, target := block[..], FreedBlock(block[..]);
      for i := 0 to block.Length
        invariant Progress(block[..], was, target, i)
      {
        Advance(block, was, target, i, PackRoute(block[i], FREE_ROUTE));
      }
      ProgressDone(block[..], was, target);
    }

    /** clear_blocks frees the routes of every listed block and keeps the payloads. */
    method ClearBlocks(blocks: seq<u16>)
      requires Valid()
      modifies this`dirty, Owned()
      ensures Valid() && level1 == old(level1)
      ensures View() == Cleared(old(View()), blocks)
    {
      ghost var st := View();
      for b := 0 to |blocks|
        invariant Valid() && level1 == old(level1)
        invariant View() == ClearedEach(st, blocks[..b])
      {
        ghost var before := View();
        var idx := blocks[b];
        assert blocks[..b + 1][..b] == blocks[..b];
        if idx < LENS_COUNT && level1[idx] != null {
          FreeEntries(level1[idx]);
          assert View().level1 == ClearedOne(before, idx).level1;
        }
        assert View() == ClearedOne(before, idx);
      }
      assert blocks[..|blocks|] == blocks;
      dirty := true;
    }

    /** expand_block: fills one block from the keystream of its lens. */
    method ExpandBlock(key: Value128, block: array<Value128>)
      requires block.Length == ENTRIES_PER_BLOCK
      modifies block
      ensures block[..] == ExpandedBlock(key)
    {
      ghost var was, target := block[..], ExpandedBlock(key);
      var state := key;
      for j := 0 to ENTRIES_PER_BLOCK
        invariant state == Stirred(key, 13, 17, j)
        invariant Progress(block[..], was, target, j)
      {
        state := StreamStep(state);
        assert PackRoute(state, FREE_ROUTE) == target[j];
        Advance(block, was, target, j, PackRoute(state, FREE_ROUTE));
      }
      ProgressDone(block[..], was, target);
    }

    /** Sets the seed and derives the lens keys from it. */
    method Rekey(s: Value128)
      requires Valid()
      modifies this`seed, lensKeys
      ensures Valid()
      ensures View() == old(View()).(seed := s, lensKeys := LensKeys(s))
    {
      ghost var st := View();
      seed := s;
      GenerateLensKeys(s, lensKeys);
      assert View().level1 == st.level1;
    }

    /** The blocks that initialize allocates and expands, one for each key. */
    method CreateBlocks() returns (blocks: seq<array<Value128>>)
      requires Valid()
      ensures |blocks| == LENS_COUNT
      ensures forall k :: 0 <= k < |blocks| ==> fresh(blocks[k])
      ensures forall k :: 0 <= k < |blocks| ==> blocks[k][..] == ExpandedBlock(lensKeys[k])
      ensures forall j, k :: 0 <= j < k < |blocks| ==> blocks[j] != blocks[k]
    {
      hide ExpandedBlock;
      blocks := [];
      ghost var keys := lensKeys[..];
      for i := 0 to LENS_COUNT
        invariant |blocks| == i && lensKeys[..] == keys
        invariant forall k :: 0 <= k < i ==> fresh(blocks[k])
        invariant forall k :: 0 <= k < i ==> blocks[k][..] == ExpandedBlock(keys[k])
        invariant forall j, k :: 0 <= j < k < i ==> blocks[j] != blocks[k]
      {
        var block := new Value128[ENTRIES_PER_BLOCK](_ => Value128(0, 0));
        ExpandBlock(lensKeys[i], block);
        blocks := blocks + [block];
      }
    }

    /** initialize: new keys, a free root and freshly expanded blocks. */
    method Initialize(s: Value128)
      requires Valid()
      modifies this, lensKeys, root
      ensures Valid() && fresh(Owned())
      ensures View() == Initialized(s)
    {
      Rekey(s);
      FreeRoot();
      var blocks := CreateBlocks();
      ghost var keys := lensKeys[..];
      level1 := blocks;
      dirty := true;
      forall i | 0 <= i < LENS_COUNT
        ensures BlockView(i) == Initialized(s).level1[i]
      {
        assert blocks[i][..] == ExpandedBlock(keys[i]);
      }
      assert View().level1 == Initialized(s).level1;
    }

    /** Assigns a newly constructed block to the root. */
    method FreeRoot()
      requires Valid()
      modifies root
      ensures root[..] == FreshBlock()
    {
      ghost var target := FreshBlock();
      forall i | 0 <= i < ENTRIES_PER_BLOCK {
        root[i] := PackRoute(Value128(0, 0), FREE_ROUTE);
      }
      assert forall i :: 0 <= i < ENTRIES_PER_BLOCK ==> root[i] == target[i];
    }

    /** The bytes of block j of the image: the root, or a block of level 1, or zeros. */
    method SealBlock(j: nat) returns (bytes: seq<u8>)
      requires Valid() && j <= LENS_COUNT
      ensures bytes == Sealed(View(), j)
    {
      ghost var st := View();
      ghost var block := NthBlock(st, j);
      assert j > 0 ==> block == BlockView(j - 1);
      var buf := new u8[BLOCK_SIZE_BYTES](_ => 0);
      if j == 0 {
        Serialize(root, buf);
      } else if level1[j - 1] != null {
        Serialize(level1[j - 1], buf);
      } else {
        assert buf[..] == Zeros(BLOCK_SIZE_BYTES);
      }
      assert buf[..] == BlockBytes(block);
      Obfuscate(buf, seed, j);
      bytes := buf[..];
    }

    /** The tag of the seed and the version number. */
    method WriteHeader() returns (bytes: seq<u8>)
      ensures bytes == Header(seed)
    {
      var tag := Xor64(Xor64(seed.hi, seed.lo), 0xA5A5_A5A5_A5A5_A5A5);
      bytes := LeBytes(tag, 8) + LeBytes(VERSION, 8);
    }

    /** save_image: the bytes written to the file. */
    method SaveImage() returns (file: seq<u8>)
      requires Valid()
      ensures file == Image(View())
    {
      hide ImagePrefix, Sealed, Header;
      file := WriteHeader();
      ghost var st := View();
      ImagePrefixStart(st);
      for j := 0 to LENS_COUNT + 1
        invariant View() == st && file == ImagePrefix(st, j)
      {
        ImagePrefixStep(st, j);
        var bytes := SealBlock(j);
        file := file + bytes;
      }
    }

    /** Reads one sealed block of the file into a block. */
    method OpenBlock(file: seq<u8>, j: nat, s: Value128, block: array<Value128>)
      requires j < WholeBlocks(file) && j < TWO64 && block.Length == ENTRIES_PER_BLOCK
      modifies block
      ensures block[..] == Opened(file, s, j)
    {
      var buf := new u8[BLOCK_SIZE_BYTES](_ => 0);
      SplicedAll(buf[..], FileBlock(file, j));
      CopyBytes(FileBlock(file, j), buf, 0);
      Obfuscate(buf, s, j);
      Deserialize(buf, block);
    }

    /**
     load_image of an existing file. Blocks are replaced one by one, so a file that ends early
     leaves the later blocks as they were.
     */
    method LoadImage(file: seq<u8>, s: Value128) returns (ok: bool)
      requires Valid()
      modifies this, lensKeys, root
      ensures Valid()
      ensures View() == Loaded(old(View()), file, s)
      ensures ok == LoadSucceeds(file, s)
    {
      Rekey(s);
      if |file| < 16 {
        return false;
      }
      if Cut(file, 0, 8) != LeBytes(Xor64(Xor64(s.hi, s.lo), 0xA5A5_A5A5_A5A5_A5A5), 8) {
        return false;
      }
      if WholeBlocks(file) < 1 {
        return false;
      }
      ghost var rekeyed := View();
      OpenBlock(file, 0, s, root);
      assert View().level1 == rekeyed.level1;
      ok := LoadBlocks(file, s);
    }

    /** The level-1 loop of load_image. */
    method LoadBlocks(file: seq<u8>, s: Value128) returns (ok: bool)
      requires Valid() && WholeBlocks(file) > 0
      modifies this`level1, this`dirty
      ensures Valid() && ok == (Loadable(file) == LENS_COUNT)
      ensures View() == old(View()).(level1 := LoadedBlocks(old(View()).level1, file, s), dirty := old(dirty) && !ok)
    {
      hide LoadedBlocks, Progress;
      var i := 0;
      ghost var st := View();
      ghost var target := LoadedBlocks(st.level1, file, s);
      ProgressStart(st.level1, target);
      while i < LENS_COUNT
        invariant 0 <= i <= LENS_COUNT && i <= WholeBlocks(file) - 1
        invariant Valid() && dirty == st.dirty && lensKeys[..] == st.lensKeys && root[..] == st.root
        invariant Progress(View().level1, st.level1, target, i)
      {
        if WholeBlocks(file) < i + 2 {
          LoadedSoFar(View().level1, st.level1, file, s, i);
          return false;
        }
        LoadNext(file, s, i, st.level1);
        i := i + 1;
      }
      ProgressDone(View().level1, st.level1, target);
      ghost var blocks := View().level1;
      dirty := false;
      assert forall k :: 0 <= k < LENS_COUNT ==> BlockView(k) == blocks[k];
      assert View().level1 == blocks;
      return true;
    }

    /** One turn of that loop: a new block takes the bytes of the file. */
    method LoadNext(file: seq<u8>, s: Value128, i: nat, ghost was: seq<Option<Block>>)
      requires Valid() && i < LENS_COUNT && i + 1 < WholeBlocks(file) && |was| == LENS_COUNT
      requires Progress(View().level1, was, LoadedBlocks(was, file, s), i)
      modifies this`level1
      ensures Valid() && Progress(View().level1, was, LoadedBlocks(was, file, s), i + 1)
    {
      hide Opened;
      var block := new Value128[ENTRIES_PER_BLOCK](_ => Value128(0, 0));
      OpenBlock(file, i + 1, s, block);
      Replace(i, block, was, LoadedBlocks(was, file, s));
    }

    /** Points entry i of level1 at another block. */
    method Replace(i: nat, block: array<Value128>, ghost was: seq<Option<Block>>, ghost target: seq<Option<Block>>)
      requires Valid() && i < LENS_COUNT && block.Length == ENTRIES_PER_BLOCK
      requires block !in Owned() && block != root && block != lensKeys
      requires Progress(View().level1, was, target, i) && target[i] == Some(block[..])
      modifies this`level1
      ensures Valid() && level1 == old(level1)[i := block]
      ensures Progress(View().level1, was, target, i + 1)
    {
      ghost var views := View().level1;
      level1 := level1[i := block];
      forall k | 0 <= k < LENS_COUNT && k != i
        ensures BlockView(k) == views[k]
      {
      }
    }
  }
}
