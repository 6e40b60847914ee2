/**
 Writing and reading chains of atoms: what a write leaves in a block, what a read returns from
 any block, and how far the two agree.
 */
module BlockStore {
  import opened Bits
  import opened Mixing
  import opened BlockAtom
  import opened Memory

  const BYTES_PER_BLOCK: nat := 13312
  /** A chain stops being readable after the entry whose route is FREE_ROUTE. */
  const READABLE_ENTRIES: nat := 1021
  const READABLE_BYTES: nat := 13273

  function Min(a: nat, b: nat): nat {
    if a < b then a else b
  }

  // ---------------------------------------------------------------- what a write leaves

  /** The number of entries that hold n bytes. */
  function Used(n: nat): nat {
    Min((n + 12) / 13, ENTRIES_PER_BLOCK)
  }

  function Chunk(data: seq<u8>, e: nat): (c: seq<u8>)
    requires 13 * e <= |data|
    ensures |c| == Min(13, |data| - 13 * e)
  {
    data[13 * e..13 * e + Min(13, |data| - 13 * e)]
  }

  /** The route of entry e in a chain of the given number of entries. */
  function NextRoute(e: nat, used: nat): (r: u16)
    requires used <= ENTRIES_PER_BLOCK
    ensures r < LENS_COUNT
  {
    if e + 1 < used then e + 1 else HALT_ROUTE
  }

  function WrittenEntry(was: Value128, data: seq<u8>, e: nat): Value128
    requires e < ENTRIES_PER_BLOCK
  {
    if e < Used(|data|) then LinkedEntry(was, Chunk(data, e), NextRoute(e, Used(|data|)))
    else PackRoute(was, FREE_ROUTE)
  }

  function WrittenBlock(was: seq<Value128>, data: seq<u8>): (block: seq<Value128>)
    requires |was| == ENTRIES_PER_BLOCK
    ensures |block| == ENTRIES_PER_BLOCK
  {
    seq(ENTRIES_PER_BLOCK, e requires 0 <= e < ENTRIES_PER_BLOCK => WrittenEntry(was[e], data, e))
  }

  /** The bytes a write puts into the payloads: the data, cut at a block, padded to whole entries. */
  function Stored(data: seq<u8>): (s: seq<u8>)
    ensures |s| == 13 * Used(|data|)
  {
    PadTo(data[..Min(|data|, BYTES_PER_BLOCK)], 13 * Used(|data|))
  }

  /** What a reader sees of an entry: its payload bytes and where it leads. */
  datatype RawHop = Hop(payload: seq<u8>, route: nat)
  type Hop = h: RawHop | |h.payload| == PAYLOAD_BYTES_PER_HOP && h.route < ENTRIES_PER_BLOCK
    witness Hop(Zeros(PAYLOAD_BYTES_PER_HOP), 0)

  function HopOf(v: Value128): Hop {
    Hop(Payload(v), Route(v))
  }

  function Hops(block: seq<Value128>): (hops: seq<Hop>)
    ensures |hops| == |block|
  {
    seq(|block|, e requires 0 <= e < |block| => HopOf(block[e]))
  }

  /** The first `used` entries carry the given bytes and are linked in order. */
  ghost predicate Chained(hops: seq<Hop>, bytes: seq<u8>, used: nat) {
    && |hops| == ENTRIES_PER_BLOCK && used <= ENTRIES_PER_BLOCK && |bytes| == 13 * used
    && forall e :: 0 <= e < used ==> hops[e] == Hop(bytes[13 * e..13 * e + 13], NextRoute(e, used))
  }

  /** An entry filled with some bytes and then routed. */
  function LinkedEntry(was: Value128, bytes: seq<u8>, route: u16): Value128
    requires |bytes| <= PAYLOAD_BYTES_PER_HOP
  {
    PackRoute(SetPayload(was, bytes), route)
  }

  lemma LinkedEntryFields(was: Value128, bytes: seq<u8>, route: u16)
    requires |bytes| <= PAYLOAD_BYTES_PER_HOP && route < LENS_COUNT
    ensures Payload(LinkedEntry(was, bytes, route)) == PadTo(bytes, PAYLOAD_BYTES_PER_HOP)
    ensures Route(LinkedEntry(was, bytes, route)) == route && CrcValid(LinkedEntry(was, bytes, route))
  {
    SetPayloadFields(was, bytes);
    LinkedFields(SetPayload(was, bytes), route);
  }

  lemma LinkedFields(v: Value128, route: u16)
    requires route < LENS_COUNT
    ensures Payload(PackRoute(v, route)) == Payload(v)
    ensures Route(PackRoute(v, route)) == route && CrcValid(PackRoute(v, route))
  {
    hide PackRoute, Payload, Route, CrcValid;
    PackRoutePayload(v, route);
    PackRouteFields(v, route);
  }

  lemma StoredChunk(data: seq<u8>, e: nat)
    requires e < Used(|data|)
    ensures PadTo(Chunk(data, e), 13) == Stored(data)[13 * e..13 * e + 13]
  {
  }

  lemma WrittenChained(was: seq<Value128>, data: seq<u8>)
    requires |was| == ENTRIES_PER_BLOCK
    ensures Chained(Hops(WrittenBlock(was, data)), Stored(data), Used(|data|))
  {
    var used := Used(|data|);
    forall e | 0 <= e < used
      ensures HopOf(WrittenBlock(was, data)[e]) == Hop(Stored(data)[13 * e..13 * e + 13], NextRoute(e, used))
    {
      LinkedEntryFields(was[e], Chunk(data, e), NextRoute(e, used));
      StoredChunk(data, e);
    }
  }

  /**
   Every entry after a write of n bytes, with u = min((n + 12) / 13, 1024) entries in use: entry
   e < u leads to e + 1, the last of them to 0x3FF, and the entries behind them are freed with
   0x3FD; all checks are valid.
   */
  lemma WrittenRoute(was: seq<Value128>, data: seq<u8>, e: nat)
    requires |was| == 1024 && e < 1024
    ensures var u := if (|data| + 12) / 13 < 1024 then (|data| + 12) / 13 else 1024;
            Route(WrittenBlock(was, data)[e]) == if e >= u then 0x3FD else if e + 1 == u then 0x3FF else e + 1
    ensures CrcValid(WrittenBlock(was, data)[e])
  {
    hide PackRoute, Route, CrcValid, SetPayload;
    if e < Used(|data|) {
      LinkedEntryFields(was[e], Chunk(data, e), NextRoute(e, Used(|data|)));
    } else {
      LinkedFields(was[e], FREE_ROUTE);
    }
  }

  /** Byte i of entry e: the data where it reaches, zero padding in the last entry, the old byte behind. */
  lemma WrittenByte(was: seq<Value128>, data: seq<u8>, e: nat, i: nat)
    requires |was| == 1024 && e < 1024 && i < 13
    ensures Payload(WrittenBlock(was, data)[e])[i] ==
      if 13 * e + i < |data| then data[13 * e + i] else if 13 * e < |data| then 0 else Payload(was[e])[i]
  {
    hide PackRoute, Payload, Route, CrcValid, SetPayload;
    if e < Used(|data|) {
      LinkedEntryFields(was[e], Chunk(data, e), NextRoute(e, Used(|data|)));
    } else {
      LinkedFields(was[e], FREE_ROUTE);
    }
  }

  // ---------------------------------------------------------------- what a read returns

  predicate Stops(route: nat) {
    route == HALT_ROUTE || route == FREE_ROUTE
  }

  /** The bytes read from entry on, with room for that many more. */
  function ReadFrom(hops: seq<Hop>, entry: nat, room: nat): (out: seq<u8>)
    ensures |out| <= room
    decreases room, hops, 1
  {
    if room == 0 || entry >= |hops| then []
    else HopBytes(hops, entry, room) + AfterHop(hops, entry, room)
  }

  /** The bytes that one hop contributes. */
  function HopBytes(hops: seq<Hop>, entry: nat, room: nat): (got: seq<u8>)
    requires entry < |hops|
    ensures |got| == Min(13, room)
  {
    hops[entry].payload[..Min(13, room)]
  }

  /** What comes after that hop. */
  function AfterHop(hops: seq<Hop>, entry: nat, room: nat): (out: seq<u8>)
    requires entry < |hops| && room > 0
    ensures |out| <= room - Min(13, room)
    decreases room, hops, 0
  {
    if Stops(hops[entry].route) then []
    else ReadFrom(hops, hops[entry].route, room - Min(13, room))
  }

  lemma ReadHop(hops: seq<Hop>, entry: nat, room: nat)
    requires entry < |hops| && room > 0
    ensures ReadFrom(hops, entry, room) == HopBytes(hops, entry, room) + AfterHop(hops, entry, room)
    ensures AfterHop(hops, entry, room) ==
      if Stops(hops[entry].route) then [] else ReadFrom(hops, hops[entry].route, room - Min(13, room))
  {
  }

  lemma ReadNothing(hops: seq<Hop>, entry: nat)
    ensures ReadFrom(hops, entry, 0) == []
  {
  }

  function ReadBlock(block: seq<Value128>, room: nat): (out: seq<u8>)
    ensures |out| <= room
  {
    ReadFrom(Hops(block), 0, room)
  }

  /** The entry that a reader reaches after k hops. */
  function EntryAfter(hops: seq<Hop>, entry: nat, k: nat): (e: nat)
    requires |hops| == ENTRIES_PER_BLOCK && entry < ENTRIES_PER_BLOCK
    ensures e < ENTRIES_PER_BLOCK
    decreases k, hops
  {
    if k == 0 then entry else EntryAfter(hops, hops[entry].route, k - 1)
  }

  /** The reader starts at its entry and follows the routes. */
  lemma EntryAfterNext(hops: seq<Hop>, entry: nat, k: nat)
    requires |hops| == ENTRIES_PER_BLOCK && entry < ENTRIES_PER_BLOCK
    ensures EntryAfter(hops, entry, 0) == entry
    ensures EntryAfter(hops, entry, k + 1) == hops[EntryAfter(hops, entry, k)].route
    decreases k
  {
    if k > 0 {
      EntryAfterNext(hops, hops[entry].route, k - 1);
    }
  }

  /** Byte 13k + i of a read is payload byte i of the entry reached after k hops. */
  lemma {:induction false} ReadByte(hops: seq<Hop>, entry: nat, room: nat, k: nat, i: nat)
    requires |hops| == ENTRIES_PER_BLOCK && entry < ENTRIES_PER_BLOCK && i < 13
    requires 13 * k + i < |ReadFrom(hops, entry, room)|
    ensures ReadFrom(hops, entry, room)[13 * k + i] == hops[EntryAfter(hops, entry, k)].payload[i]
    decreases k
  {
    hide ReadFrom, AfterHop;
    ReadHop(hops, entry, room);
    if k > 0 {
      ReadByte(hops, hops[entry].route, room - Min(13, room), k - 1, i);
    }
  }

  predicate StopsAfter(hops: seq<Hop>, entry: nat, k: nat)
    requires |hops| == ENTRIES_PER_BLOCK && entry < ENTRIES_PER_BLOCK
  {
    Stops(hops[EntryAfter(hops, entry, k)].route)
  }

  lemma {:induction false} ShortReadMeetsStop(hops: seq<Hop>, entry: nat, room: nat) returns (k: nat)
    requires |hops| == ENTRIES_PER_BLOCK && entry < ENTRIES_PER_BLOCK
    requires |ReadFrom(hops, entry, room)| < room
    ensures 13 * (k + 1) < room && StopsAfter(hops, entry, k)
    decreases room
  {
    hide ReadFrom, AfterHop;
    ReadHop(hops, entry, room);
    if Stops(hops[entry].route) {
      k := 0;
    } else {
      var j := ShortReadMeetsStop(hops, hops[entry].route, room - 13);
      k := j + 1;
    }
  }

  lemma {:induction false} StopMakesShort(hops: seq<Hop>, entry: nat, room: nat, k: nat)
    requires |hops| == ENTRIES_PER_BLOCK && entry < ENTRIES_PER_BLOCK
    requires 13 * (k + 1) < room && StopsAfter(hops, entry, k)
    ensures |ReadFrom(hops, entry, room)| < room
    decreases k
  {
    hide ReadFrom, AfterHop;
    ReadHop(hops, entry, room);
    if !Stops(hops[entry].route) {
      StopMakesShort(hops, hops[entry].route, room - 13, k - 1);
    }
  }

  /**
   A read is short exactly if the reader reaches a HALT or FREE route with room to spare; a chain
   that reaches none, such as a cycle, fills the whole request.
   */
  lemma ShortReadIff(hops: seq<Hop>, entry: nat, room: nat)
    requires |hops| == ENTRIES_PER_BLOCK && entry < ENTRIES_PER_BLOCK
    ensures |ReadFrom(hops, entry, room)| < room
      <==> exists k: nat :: 13 * (k + 1) < room && hops[EntryAfter(hops, entry, k)].route in {0x3FD, 0x3FF}
  {
    hide ReadFrom, EntryAfter;
    if |ReadFrom(hops, entry, room)| < room {
      var k := ShortReadMeetsStop(hops, entry, room);
      assert hops[EntryAfter(hops, entry, k)].route in {0x3FD, 0x3FF};
    }
    if k: nat :| 13 * (k + 1) < room && hops[EntryAfter(hops, entry, k)].route in {0x3FD, 0x3FF} {
      StopMakesShort(hops, entry, room, k);
    }
  }

  lemma JoinSlices(s: seq<u8>, a: nat, b: nat, c: nat)
    requires a <= b <= c <= |s|
    ensures s[a..b] + s[b..c] == s[a..c]
  {
  }

  /** From entry e on, a linked chain reads back its bytes up to the bound. */
  lemma {:induction false} ReadChained(hops: seq<Hop>, bytes: seq<u8>, used: nat, e: nat, room: nat)
    requires Chained(hops, bytes, used) && e < Min(used, READABLE_ENTRIES)
    ensures ReadFrom(hops, e, room)
         == bytes[13 * e..13 * e + Min(room, 13 * (Min(used, READABLE_ENTRIES) - e))]
    decreases room
  {
    hide ReadFrom, AfterHop;
    if room == 0 {
      ReadNothing(hops, e);
    } else {
      var last, k := Min(used, READABLE_ENTRIES), Min(13, room);
      ReadHop(hops, e, room);
      HopOfChain(hops, bytes, used, e, room);
      if e + 1 == last {
        AppendNothing(bytes[13 * e..13 * e + k]);
      } else {
        ReadChained(hops, bytes, used, e + 1, room - k);
        var rest := Min(room - k, 13 * (last - (e + 1)));
        SplitCount(room, last - e);
        JoinSlices(bytes, 13 * e, 13 * e + k, 13 * e + k + rest);
      }
    }
  }

  lemma HopOfChain(hops: seq<Hop>, bytes: seq<u8>, used: nat, e: nat, room: nat)
    requires Chained(hops, bytes, used) && e < Min(used, READABLE_ENTRIES) && room > 0
    ensures HopBytes(hops, e, room) == bytes[13 * e..13 * e + Min(13, room)]
    ensures if e + 1 == Min(used, READABLE_ENTRIES) then Stops(hops[e].route)
            else hops[e].route == e + 1 && !Stops(e + 1)
  {
  }

  lemma SplitCount(room: nat, n: nat)
    requires n > 0
    ensures var k := Min(13, room); var rest := Min(room - k, 13 * (n - 1));
            k + rest == Min(room, 13 * n) && (rest > 0 ==> k == 13)
  {
  }

  /** A write of nothing frees every entry; a read then still returns what entry 0 held. */
  lemma ReadAfterEmptyWrite(was: seq<Value128>, room: nat)
    requires |was| == ENTRIES_PER_BLOCK
    ensures ReadBlock(WrittenBlock(was, []), room) == Payload(was[0])[..Min(13, room)]
  {
    var hops := Hops(WrittenBlock(was, []));
    LinkedFields(was[0], FREE_ROUTE);
    assert Used(0) == 0;
    assert WrittenBlock(was, [])[0] == PackRoute(was[0], FREE_ROUTE);
    FreeHop(hops, room, Payload(was[0]));
  }

  lemma FreeHop(hops: seq<Hop>, room: nat, payload: seq<u8>)
    requires |hops| == ENTRIES_PER_BLOCK && hops[0].payload == payload && hops[0].route == FREE_ROUTE
    ensures ReadFrom(hops, 0, room) == payload[..Min(13, room)]
  {
    if room > 0 {
      AppendNothing(HopBytes(hops, 0, room));
    }
  }

  /** Reading back a written block: with any request size, the stored bytes of 1021 entries. */
  lemma ReadAfterWrite(was: seq<Value128>, data: seq<u8>, room: nat)
    requires |was| == ENTRIES_PER_BLOCK && |data| > 0
    ensures ReadBlock(WrittenBlock(was, data), room)
         == Stored(data)[..Min(room, 13 * Min(Used(|data|), READABLE_ENTRIES))]
  {
    WrittenChained(was, data);
    ReadChained(Hops(WrittenBlock(was, data)), Stored(data), Used(|data|), 0, room);
  }

  lemma StoredPrefix(data: seq<u8>, n: nat)
    requires n <= |data| && n <= BYTES_PER_BLOCK
    ensures n <= |Stored(data)| && Stored(data)[..n] == data[..n]
  {
  }

  lemma BoundInBytes(n: nat)
    ensures Min(n, 13 * Min(Used(n), READABLE_ENTRIES)) == Min(n, READABLE_BYTES)
  {
  }

  /** Asking for as many bytes as were written returns the first 13273 of them at most. */
  lemma ReadBack(was: seq<Value128>, data: seq<u8>)
    requires |was| == ENTRIES_PER_BLOCK
    ensures ReadBlock(WrittenBlock(was, data), |data|) == data[..Min(|data|, READABLE_BYTES)]
  {
    var n := |data|;
    if n > 0 {
      ReadAfterWrite(was, data, n);
      BoundInBytes(n);
      StoredPrefix(data, Min(n, READABLE_BYTES));
    }
  }

  /** A write can be read back in full exactly up to 13273 bytes, 39 fewer than a block stores. */
  lemma RoundTripIff(was: seq<Value128>, data: seq<u8>)
    requires |was| == ENTRIES_PER_BLOCK
    ensures ReadBlock(WrittenBlock(was, data), |data|) == data <==> |data| <= READABLE_BYTES
  {
    ReadBack(was, data);
  }

  /** A concrete full block whose last 39 bytes cannot be read back. */
  lemma FullBlockLosesBytes(was: seq<Value128>)
    requires |was| == ENTRIES_PER_BLOCK
    ensures |Zeros(BYTES_PER_BLOCK)| == BYTES_PER_BLOCK
    ensures ReadBlock(WrittenBlock(was, Zeros(BYTES_PER_BLOCK)), BYTES_PER_BLOCK) != Zeros(BYTES_PER_BLOCK)
  {
    RoundTripIff(was, Zeros(BYTES_PER_BLOCK));
  }

  // ---------------------------------------------------------------- well-linked blocks

  /** Every entry has a valid check and leads to its successor or nowhere. */
  ghost predicate WellLinked(block: seq<Value128>) {
    && |block| == ENTRIES_PER_BLOCK
    && forall e :: 0 <= e < |block| ==>
         CrcValid(block[e]) && (Stops(Route(block[e])) || Route(block[e]) == e + 1)
  }

  lemma WrittenWellLinked(was: seq<Value128>, data: seq<u8>)
    requires |was| == ENTRIES_PER_BLOCK
    ensures WellLinked(WrittenBlock(was, data))
  {
    var block := WrittenBlock(was, data);
    forall e | 0 <= e < ENTRIES_PER_BLOCK
      ensures CrcValid(block[e]) && (Stops(Route(block[e])) || Route(block[e]) == e + 1)
    {
      if e < Used(|data|) {
        LinkedEntryFields(was[e], Chunk(data, e), NextRoute(e, Used(|data|)));
      } else {
        PackRouteFields(was[e], FREE_ROUTE);
      }
    }
  }

  /** Every route set to FREE; the payloads stay. */
  function FreedBlock(was: seq<Value128>): (block: seq<Value128>)
    ensures |block| == |was|
  {
    seq(|was|, e requires 0 <= e < |was| => PackRoute(was[e], FREE_ROUTE))
  }

  /** Freeing keeps every payload, and sets every route to FREE under a valid check. */
  lemma FreedWellLinked(was: seq<Value128>)
    requires |was| == ENTRIES_PER_BLOCK
    ensures WellLinked(FreedBlock(was)) && AllFree(FreedBlock(was))
    ensures forall e :: 0 <= e < 1024 ==>
      Payload(FreedBlock(was)[e]) == Payload(was[e]) && Route(FreedBlock(was)[e]) == 0x3FD
  {
    hide PackRoute, Payload, Route, CrcValid;
    forall e | 0 <= e < ENTRIES_PER_BLOCK
      ensures CrcValid(FreedBlock(was)[e]) && Route(FreedBlock(was)[e]) == FREE_ROUTE
      ensures Payload(FreedBlock(was)[e]) == Payload(was[e])
    {
      LinkedFields(was[e], FREE_ROUTE);
    }
  }

  /** No entry of the block is in a chain. */
  ghost predicate AllFree(block: seq<Value128>) {
    forall e :: 0 <= e < |block| ==> Route(block[e]) == FREE_ROUTE
  }

  lemma PackRouteTwice(v: Value128, r: u16)
    ensures PackRoute(PackRoute(v, r), r) == PackRoute(v, r)
  {
    PackRouteFields(v, r);
  }

  /** Freeing a free block changes nothing. */
  lemma FreedTwice(was: seq<Value128>)
    ensures FreedBlock(FreedBlock(was)) == FreedBlock(was)
  {
    hide PackRoute;
    forall e | 0 <= e < |was|
      ensures FreedBlock(FreedBlock(was))[e] == FreedBlock(was)[e]
    {
      PackRouteTwice(was[e], FREE_ROUTE);
    }
  }

  // ---------------------------------------------------------------- the loops

  /** The loops of write_block_data over the entries of one block. */
  method FillBlock(block: array<Value128>, data: seq<u8>) returns (written: nat)
    requires block.Length == ENTRIES_PER_BLOCK
    modifies block
    ensures block[..] == WrittenBlock(old(block[..]), data)
    ensures written == Min(|data|, BYTES_PER_BLOCK)
  {
    ghost var was, target := block[..], WrittenBlock(block[..], data);
    written := 0;
    var entry: nat := 0;
    while written < |data| && entry < ENTRIES_PER_BLOCK
      invariant entry <= Used(|data|) && written == Min(13 * entry, |data|)
      invariant Progress(block[..], was, target, entry)
      decreases ENTRIES_PER_BLOCK - entry
    {
      var chunk := Min(PAYLOAD_BYTES_PER_HOP, |data| - written);
      assert data[written..written + chunk] == Chunk(data, entry);
      var v := StorePayload(block[entry], data[written..written + chunk]);
      if written + chunk < |data| && entry + 1 < ENTRIES_PER_BLOCK {
        v := PackRoute(v, entry + 1);
      } else {
        v := PackRoute(v, HALT_ROUTE);
      }
      assert v == LinkedEntry(was[entry], Chunk(data, entry), NextRoute(entry, Used(|data|)));
      Advance(block, was, target, entry, v);
      written := written + chunk;
      entry := entry + 1;
    }
    while entry < ENTRIES_PER_BLOCK
      invariant Used(|data|) <= entry <= ENTRIES_PER_BLOCK
      invariant Progress(block[..], was, target, entry)
    {
      var v := PackRoute(block[entry], FREE_ROUTE);
      assert v == target[entry];
      Advance(block, was, target, entry, v);
      entry := entry + 1;
    }
    ProgressDone(block[..], was, target);
  }

  /** Stores one entry; everything below it already has its final value. */
  method Advance(block: array<Value128>, ghost was: seq<Value128>, ghost target: seq<Value128>, entry: nat, v: Value128)
    requires Progress(block[..], was, target, entry) && entry < |target| && v == target[entry]
    modifies block
    ensures Progress(block[..], was, target, entry + 1)
  {
    block[entry] := v;
  }

  /** One hop of read_block_data: at most 13 payload bytes go to the output. */
  method CopyHop(v: Value128, out: array<u8>, at: nat, room: nat) returns (cp: nat)
    requires at + room <= out.Length
    modifies out
    ensures cp == Min(PAYLOAD_BYTES_PER_HOP, room)
    ensures out[..] == Spliced(old(out[..]), at, Payload(v)[..cp])
  {
    var payload := GetPayload(v, PAYLOAD_BYTES_PER_HOP);
    assert payload == Payload(v);
    cp := Min(|payload|, room);
    CopyBytes(payload[..cp], out, at);
  }

  /** The loop of read_block_data; it ends on every block, even one whose routes form a cycle. */
  method FollowChain(block: array<Value128>, out: array<u8>, start: nat, maxLen: nat) returns (total: nat)
    requires block.Length == ENTRIES_PER_BLOCK && start + maxLen <= out.Length
    modifies out
    ensures total == |ReadBlock(block[..], maxLen)|
    ensures out[..] == Spliced(old(out[..]), start, ReadBlock(block[..], maxLen))
  {
    hide ReadFrom, AfterHop, Spliced, Payload;
    ghost var hops, was, read := Hops(block[..]), out[..], ReadBlock(block[..], maxLen);
    ghost var got, rest := [], read;
    SplicedNothing(was, start);
    total := 0;
    var entry: nat := 0;
    while total < maxLen && entry < ENTRIES_PER_BLOCK
      invariant total == |got| <= maxLen && entry < ENTRIES_PER_BLOCK
      invariant read == got + rest && rest == ReadFrom(hops, entry, maxLen - total)
      invariant out[..] == Spliced(was, start, got)
      decreases maxLen - total
    {
      assert hops[entry] == HopOf(block[entry]);
      ReadHop(hops, entry, maxLen - total);
      var route := Route(block[entry]);
      ghost var bytes, next := HopBytes(hops, entry, maxLen - total), AfterHop(hops, entry, maxLen - total);
      AppendAssociates(got, bytes, next);
      SplicedTwice(was, start, got, bytes);
      var cp := CopyHop(block[entry], out, start + total, maxLen - total);
      got, rest := got + bytes, next;
      total := total + cp;
      if route == HALT_ROUTE || route == FREE_ROUTE {
        break;
      }
      if route < ENTRIES_PER_BLOCK {
        entry := route;
      } else {
        break;
      }
    }
    if total == maxLen {
      ReadNothing(hops, entry);
    }
    assert rest == [];
    AppendNothing(got);
  }
}
