# Emergence storage stack, hash, line drawer and boot tables: a verified model

This project models the storage stack of the repository in Dafny and proves what it guarantees:
the chained block store of 128-bit atoms and its file image, the 1024-slot block cache and its four
clients, the speculative ring, the correction-stream encoder, SHA-256, the Bresenham line drawer
and the loops that fill the boot page tables.

Words are natural numbers with the bounds of their width. Shifts, masks, exclusive or and `|` are
defined on binary digits in `Bits.dfy`; every product, sum or counter that can wrap in the source is
reduced by its width explicitly. Objects that the source updates in place are classes over arrays
and fields. Each has a function giving its abstract value, and each method states the new value
through a function of the old one (`StoreModel`, `ManifoldModel`, `Sha256Spec`, `Graphics.Walk`,
`PageTables.FinalEntry`); the properties are lemmas about those functions and about runs of them.

| part | modules |
|---|---|
| words, buffers, mixing steps | `Bits`, `Memory`, `Mixing` |
| chained block store | `BlockAtom`, `BlockImage`, `BlockStore`, `StoreModel`, `BmtTopology` |
| block cache | `ManifoldModel`, `Manifold`, `ManifoldRuns`, `WriteBursts`, `Deadlines`, `BlockSweep` |
| clients of the cache | `SubstrateService`, `RequestResidency`, `Transducer`, `BurnResidency`, `AuditLog`, `StateEngine`, `PredictiveEngine` |
| correction stream | `Evaporate` |
| SHA-256 | `BlockFold`, `Sha256Spec`, `Sha256` |
| its constants, machine words and example | `Sha256Constants`, `MachineWords`, `Sha256Machine`, `Sha256Example` |
| line drawing, page tables | `Graphics`, `PageTables` |

`dafny verify dfyconfig.toml` checks everything.

## Where the code falls short of its names

- A block is said to hold 13312 bytes, but only 13273 come back. Route values 1021 to 1023 are both
  sentinels and entry numbers, and the entry before number 1021 therefore ends every read
  (`BlockStore.RoundTripIff`). A multi-block chain never gets past its first block
  (`StoreModel.ChainRoundTripIff`).
- The image tag is symmetric in the two halves of the seed (`StoreModel.SwappedSeedOpens`).
- Eviction in the cache does not clear a slot, and hits do not refresh it. A write request can evict
  its own first block, in particular one that was resident before. Which sectors come back is told
  exactly from the state before the request (`RequestResidency.WriteReadIff`).
- The noise generator loops forever for entry 65535, so the encoder ends exactly for inputs of at
  most 917490 bytes (`Evaporate.EveryNoiseLoopEndsIff`).
- The speculative ring does not check for room, and a rollback moves a head that a push may be about
  to overwrite. `PredictiveEngine.RunSafeIff` gives the exact terms of safety: a record is published
  onto at most 254 pending ones, or 255 while a check is under way; a store that meets 256 pending
  records changes no word the check still has to load; a rollback comes between pushes, or with 256
  pending. A breach hides pending records, tears one, or brings a dropped one back. Beginning pushes
  below 255 and rolling back between pushes is enough (`PredictiveEngine.CarefulFollows`).
- `write_slot` marks an empty slot resident without setting its block number; if that block is resident
  elsewhere by then, it is held twice (`ManifoldModel.SlotWrittenUniqueIff`).
- The state engine excludes the FREE and ERROR routes but not zero, so consulting an absent block
  counts as a valid step to state 0 (`StateEngine.AbsentLeadsToZero`).

## Model

| member | source | states |
|---|---|---|
| Bits.RotateIsShiftOr | src/vdev/bmt_topology.hpp:155-156 | The rotation used throughout is the source's pair of shifts joined by `\|`, for every word and distance. |
| Bits.Rotl64Bit | src/vdev/bmt_topology.hpp:155-156 | Bit i of a word rotated left by k is bit i - k of the word, around the end. |
| Mixing.StirBits | src/vdev/bmt_topology.hpp:155-156 | Every bit of a mixing step: the rotated bit of hi plus the bit of lo times 0x9E3779B97F4A7C15, then the rotated bit of lo plus the bit of the new hi times 0x517CC1B727220A95, both modulo 2^64. |
| Mixing.StirredBijective | src/vdev/bmt_topology.hpp:154-157 | Any number of mixing steps with any rotations has a two-sided inverse, so it permutes the 128-bit states. |
| Mixing.FinalCompression | src/vdev/bmt_topology.hpp:153-159 | The last loop of the key derivation applies exactly 250000 steps to its input. |
| Mixing.FinalRoundsInjective | src/vdev/bmt_topology.hpp:153-157 | Those 250000 rounds agree on two inputs exactly if the inputs are equal. |
| Mixing.GenerateLensKeys | src/vdev/bmt_topology.hpp:169-182 | The generator fills all 1024 keys in place, each from the seed and its own index. |
| Mixing.LensKeyIs | src/vdev/bmt_topology.hpp:171-179 | A lens key is 64 rounds from the seed with the index mixed into hi and, 32 bits up, into lo. |
| Mixing.LensRoundsNext | src/vdev/bmt_topology.hpp:173-177 | A round is a step with rotations 7 and 11, after which hi grows by the index modulo 2^64. |
| Mixing.LensKeyInjective | src/vdev/bmt_topology.hpp:169-182 | For each lens, two master seeds give the same key exactly if they are equal, although the index is added in every round. |
| BlockAtom.PackRouteFields | src/vdev/bmt_topology.hpp:44-68 | Packing a route makes it readable modulo 1024, makes the check valid, and leaves all 116 payload bits alone. |
| BlockAtom.FieldsAre | src/vdev/bmt_topology.hpp:44-50 | Route and check are bits 54 to 63 and bits 52 to 53 of the high word. |
| BlockAtom.PackRoutePayload | src/vdev/bmt_topology.hpp:63-77 | Packing a route does not change the 13 payload bytes a reader gets. |
| BlockAtom.GatherByte | src/vdev/bmt_topology.hpp:84-87 | One turn of a gathering loop: the shift and `\|=` append a byte to those gathered so far. |
| BlockAtom.StorePayload | src/vdev/bmt_topology.hpp:79-89 | The words that the two gathering loops build are an atom whose payload is the first 13 bytes padded with zeros and whose top twelve bits are the old ones; longer data is cut. |
| BlockAtom.GetPayload | src/vdev/bmt_topology.hpp:70-77 | The two loops return the first min(max, 13) payload bytes in order. |
| BlockAtom.PayloadAt | src/vdev/bmt_topology.hpp:70-77 | Payload byte i is byte i of lo for i < 8 and byte i - 8 of hi behind. |
| BlockAtom.SetPayloadFields | src/vdev/bmt_topology.hpp:70-89 | What was stored as payload is what is read as payload, padded to 13 bytes, and route and check bits stay. |
| BlockAtom.ComputeCrcIsDigitSum | src/vdev/bmt_topology.hpp:52-59 | The shift-and-xor cascade computes the exclusive or of all base-4 digits of the folded payload. |
| BlockAtom.ComputeCrcLinear | src/vdev/bmt_topology.hpp:52-59 | The check of a sum (exclusive or) of atoms is the sum of their checks. |
| BlockAtom.DamageUndetected | src/vdev/bmt_topology.hpp:48-61 | Damage to a valid atom goes unnoticed exactly if the damage pattern is itself a valid atom. |
| BlockAtom.SingleFlipDetected | src/vdev/bmt_topology.hpp:48-61 | Flipping any one payload bit of a valid atom makes its check fail. |
| BlockImage.AtomFromBytes | src/vdev/bmt_topology.hpp:91-99 | An atom written to 16 bytes and read back is the same atom. |
| BlockImage.AtomBytesFrom | src/vdev/bmt_topology.hpp:91-99 | Sixteen bytes read as an atom and written back are the same bytes. |
| BlockImage.Serialize | src/vdev/bmt_topology.hpp:198-201 | The loop lays out the 1024 entries of a block one after the other. |
| BlockImage.Deserialize | src/vdev/bmt_topology.hpp:203-206 | The loop fills every entry of a block from the buffer. |
| BlockImage.SerializedAt | src/vdev/bmt_topology.hpp:91-99 | Byte b of entry e lies at 16 e + b: lo first, then hi, least significant byte first. |
| BlockImage.DeserializedSerialized | src/vdev/bmt_topology.hpp:198-206 | Reading a serialized block gives the block back. |
| BlockImage.SerializedDeserialized | src/vdev/bmt_topology.hpp:198-206 | Serializing what was read from a buffer gives the buffer back. |
| BlockImage.Obfuscate | src/vdev/bmt_topology.hpp:393-402 | The in-place loop masks every byte with the keystream of seed and block index, for any length, including a short last stride. |
| BlockImage.MaskedByte | src/vdev/bmt_topology.hpp:395-400 | Byte j of stride i is masked with byte j of the low word after i + 1 mixing steps with rotations 13 and 17. |
| BlockImage.KeyStartZero | src/vdev/bmt_topology.hpp:394 | Block 0 starts its keystream from the seed itself. |
| BlockImage.KeyStartGrows | src/vdev/bmt_topology.hpp:394 | From each index to the next, what is mixed into hi and lo grows by 0x9E3779B97F4A7C15 and 0x517CC1B727220A95 modulo 2^64. |
| BlockImage.KeystreamsDiffer | src/vdev/bmt_topology.hpp:393-398 | Different block indices, all 2^64 of them, give different keystream states at every stride, as the factors are odd and the steps lose nothing. |
| BlockImage.ObfuscatedTwice | src/vdev/bmt_topology.hpp:393-402 | Masking twice under the same seed and index restores the data. |
| BlockStore.FillBlock | src/vdev/bmt_topology.hpp:251-269 | The two loops leave the block that a write specifies, entry by entry, and return min(length, 13312). |
| BlockStore.WrittenChained | src/vdev/bmt_topology.hpp:253-263 | After a write the used entries carry the data, 13 bytes each and zero-padded, and are linked in order up to a HALT route. |
| BlockStore.WrittenRoute | src/vdev/bmt_topology.hpp:255-267 | The route of every entry after a write of n bytes: with u = min(ceil(n/13), 1024), entry e + 1 < u leads to e + 1, entry u - 1 is 0x3FF, and those behind are 0x3FD. |
| BlockStore.WrittenByte | src/vdev/bmt_topology.hpp:255-267 | Byte i of entry e after a write: byte 13 e + i of the data, zero padding in the last entry, the old byte behind it. |
| BlockStore.FollowChain | src/vdev/bmt_topology.hpp:276-289 | The read loop ends on every block, also on cyclic routes, copies exactly what following the routes yields, and never more than asked for. |
| BlockStore.ReadByte | src/vdev/bmt_topology.hpp:276-289 | From any entry of any block, byte 13 k + i of a read is payload byte i of the entry reached after k routes. |
| BlockStore.ShortReadIff | src/vdev/bmt_topology.hpp:278-288 | A read returns less than asked for exactly if the reader reaches a route 0x3FF or 0x3FD with room to spare; a chain that reaches none, such as a cycle, fills the whole request. |
| BlockStore.ReadAfterWrite | src/vdev/bmt_topology.hpp:248-290 | Reading a written block with any room returns the stored, zero-padded bytes of min(ceil(n/13), 1021) entries, cut to the room. |
| BlockStore.ReadAfterEmptyWrite | src/vdev/bmt_topology.hpp:248-290 | A write of no bytes frees all entries, yet a read still returns the old payload of entry 0. |
| BlockStore.ReadBack | src/vdev/bmt_topology.hpp:248-290 | Asking for n bytes after writing n returns the first min(n, 13273). |
| BlockStore.RoundTripIff | src/vdev/bmt_topology.hpp:19-27 | A block gives its data back exactly if there are at most 13273 bytes: entry 1020 points to entry 1021, whose number is FREE_ROUTE. |
| BlockStore.FullBlockLosesBytes | src/vdev/bmt_topology.hpp:27 | A concrete message of BYTES_PER_BLOCK bytes that does not come back. |
| BlockStore.WrittenWellLinked | src/vdev/bmt_topology.hpp:253-267 | After a write every entry has a valid check and leads to its successor, to HALT or to FREE. |
| BlockStore.FreedWellLinked | src/vdev/bmt_topology.hpp:318-319 | Freeing sets every route to FREE under a valid check and keeps every payload. |
| StoreModel.ChainStores | src/vdev/bmt_topology.hpp:293-301 | Over distinct present blocks a chain write stores min(n, 13312 k) bytes, piece b in block b, and leaves every other block alone. |
| StoreModel.WrittenIs | src/vdev/bmt_topology.hpp:248-270 | A write to a present block takes min(n, 13312) bytes, replaces that block and sets dirty; an absent block or an index from 1024 on changes nothing. |
| StoreModel.AbsentInChain | src/vdev/bmt_topology.hpp:293-313 | A chain write passes over an absent block with the same bytes; a chain read ends there. |
| StoreModel.ChainWrittenRest | src/vdev/bmt_topology.hpp:293-301 | A chain write changes nothing but level-1 blocks, and sets dirty exactly if it wrote something. |
| StoreModel.ChainReadAfterWrite | src/vdev/bmt_topology.hpp:293-313 | Reading the chain back returns the first min(n, 13273) bytes: the read never continues past the first block. |
| StoreModel.ChainRoundTripIff | src/vdev/bmt_topology.hpp:293-313 | A chain of any length gives its data back exactly up to 13273 bytes. |
| StoreModel.InitializedSound | src/vdev/bmt_topology.hpp:224-245 | Initialization gives every lens a block with valid checks, makes every route in every block FREE, and derives the keys from the seed. |
| StoreModel.InitializedIs | src/vdev/bmt_topology.hpp:224-245 | After initialize: zero payloads in the root, in entry j of block i the payload of lens key i after j + 1 steps, every route 0x3FD, keys of the seed, and dirty set. |
| StoreModel.ClearedBlocks | src/vdev/bmt_topology.hpp:315-323 | Clearing sets every route of the listed blocks that exist to 0x3FD under a valid check, however often listed, keeps their payloads, and leaves every other block, the root, the seed and the keys alone. |
| StoreModel.ApplySound | src/vdev/bmt_topology.hpp:248-387 | Every write, chain write, clear and save-load cycle keeps that. |
| StoreModel.RunSound | src/vdev/bmt_topology.hpp:224-387 | After any run of operations from initialize, every entry of every block has a valid check and leads to its successor, HALT or FREE. |
| StoreModel.SaveLoad | src/vdev/bmt_topology.hpp:336-387 | Loading a saved image into any topology restores seed, keys, root and blocks; a null block comes back as zero atoms. |
| StoreModel.SaveLoadRoundTrip | src/vdev/bmt_topology.hpp:336-387 | For an initialized topology the loaded state is the saved one with dirty cleared. |
| StoreModel.LoadOpensIffTag | src/vdev/bmt_topology.hpp:358-387 | A saved image opens under a seed exactly if the tags agree; otherwise no block and no flag changes, but seed and keys do. |
| StoreModel.SwappedSeedOpens | src/vdev/bmt_topology.hpp:339-370 | The tag does not identify the seed: the seed with its halves swapped opens the image. |
| StoreModel.TruncatedFails | src/vdev/bmt_topology.hpp:365-383 | No proper prefix of a saved image loads, under any seed. |
| StoreModel.TruncatedLoad | src/vdev/bmt_topology.hpp:365-383 | What a prefix of n bytes of an image still does to any topology: the whole blocks in it come back one by one, the others stay, and dirty is not cleared. |
| StoreModel.VersionIgnored | src/vdev/bmt_topology.hpp:365-372 | Loading does not look at the version field. |
| StoreModel.ImageHeader | src/vdev/bmt_topology.hpp:339-341 | An image has 16 + 1025 * 16384 bytes and starts with hi ^ lo ^ 0xA5A5A5A5A5A5A5A5 and version 4. |
| StoreModel.ImageByte | src/vdev/bmt_topology.hpp:343-353 | Every byte behind the header: byte k of block j is the serialized byte of the root (j = 0) or of level-1 block j - 1, zero for a null one, masked with byte k mod 8 of step k/8 + 1 of the keystream of index j. |
| BmtTopology.Topology.constructor | src/vdev/bmt_topology.hpp:222 | A new topology has no level-1 blocks, a root of FREE entries, and is clean. |
| BmtTopology.Topology.Initialize | src/vdev/bmt_topology.hpp:224-233 | Fresh blocks for all lenses, replaced in place; the new state is that of initialize. |
| BmtTopology.Topology.ExpandBlock | src/vdev/bmt_topology.hpp:235-245 | The loop fills entry j with keystream step j + 1, routed to FREE. |
| BmtTopology.Topology.WriteBlockData | src/vdev/bmt_topology.hpp:248-270 | Writes one block in place; an index out of range or a null block takes nothing and changes nothing. |
| BmtTopology.Topology.ReadBlockData | src/vdev/bmt_topology.hpp:273-290 | Reads one block into part of a buffer, leaves the rest of the buffer and the topology as they were. |
| BmtTopology.Topology.WriteChain | src/vdev/bmt_topology.hpp:293-301 | The loop over the blocks has the effect and the count of the chain write. |
| BmtTopology.Topology.ReadChain | src/vdev/bmt_topology.hpp:304-313 | The loop over the blocks returns the bytes and the count of the chain read. |
| BmtTopology.Topology.ClearBlocks | src/vdev/bmt_topology.hpp:315-323 | The nested loops have the effect of clearing, on the blocks in place. |
| BmtTopology.Topology.SaveImage | src/vdev/bmt_topology.hpp:336-356 | The file is the header followed by the 1025 masked blocks; the topology does not change. |
| BmtTopology.Topology.LoadImage | src/vdev/bmt_topology.hpp:358-387 | Success exactly if tag and length fit; on every path, including early failure, the exact new state. |
| ManifoldModel.CellFromBytes | src/vdev/topology.hpp:18-20 | An atom stored as sixteen bytes and read back is the same atom. |
| ManifoldModel.CellByteAt | src/vdev/topology.hpp:18-20 | A cell holds hi, then lo, least significant byte first. |
| ManifoldModel.AddressSplit | src/vdev/topology.hpp:87-90 | An address is 16384 times its block plus the offset of its cell plus the byte in the cell. |
| ManifoldModel.RouteIs | src/vdev/topology.hpp:21 | The route is the high word divided by 2^54. |
| ManifoldModel.CreatedIs | src/vdev/topology.hpp:69-73 | Exactly what a creation changes: slot counter mod 1024 becomes RESIDENT with the new block number, the counter grows modulo 2^32, pool and other slots stay. |
| ManifoldModel.WrappedCount | src/vdev/topology.hpp:61-72 | Because 1024 divides 2^32, wrapping the creation counter does not disturb the order of victims. |
| ManifoldModel.AcquiredBlocks | src/vdev/topology.hpp:63-74 | Taking in a block makes it resident in the slot returned, evicts at most the block in the victim slot, and moves no other. |
| ManifoldModel.MaterializedBlock | src/vdev/topology.hpp:93-97 | After a write the block is resident and holds the data over whatever its slot held before. |
| ManifoldModel.MaterializedOther | src/vdev/topology.hpp:93-97 | Any other block keeps residence and contents, unless it was the victim. |
| ManifoldModel.FetchedCell | src/vdev/topology.hpp:86-91 | A fetch returns the cell of a resident block, and zeros for an absent one. |
| ManifoldModel.CopiedByte | src/vdev/topology.hpp:93-97 | What a copy does to every byte of every slot, also when it leaves its block: the rest goes into the following slots, whichever blocks they hold. |
| ManifoldModel.SlotClearedBlocks | src/vdev/topology.hpp:121-124 | Clearing a slot loses the block in it and no other. |
| ManifoldModel.SlotReadIs | src/vdev/topology.hpp:105-111 | read_slot returns nothing from an empty slot and otherwise the first min(max, 16) bytes of its block, byte by byte. |
| ManifoldModel.SlotWrittenIs | src/vdev/topology.hpp:113-119 | write_slot makes the slot RESIDENT, keeps every block number and the counter, and no other slot changes its state. |
| ManifoldModel.SlotReadBack | src/vdev/topology.hpp:105-119 | What write_slot stores, at most sixteen bytes, comes back from read_slot, and other slots read as before. |
| ManifoldModel.SlotWrittenUniqueIff | src/vdev/topology.hpp:113-119 | After write_slot no block is held twice exactly if the slot was in use or the block number it still carries is not resident elsewhere. |
| ManifoldModel.SlotRevived | src/vdev/topology.hpp:113-119 | An empty slot that is written is found again under its old block number, with its old bytes behind the new ones. |
| Manifold.SubstrateManifold.constructor | src/vdev/topology.hpp:77-80 | All slots empty, counter zero, pool bytes as allocated. |
| Manifold.SubstrateManifold.FindPhysicalBlock | src/vdev/topology.hpp:63-67 | The search returns the slot of the block, or none exactly if it is absent, and changes nothing. |
| Manifold.SubstrateManifold.GetPhysicalBlock | src/vdev/topology.hpp:63-74 | With create, the state and the slot are those of taking in the block; a hit changes nothing. |
| Manifold.SubstrateManifold.HolographicFetch | src/vdev/topology.hpp:86-91 | Returns the fetched cell and modifies nothing. |
| Manifold.SubstrateManifold.MaterializeRange | src/vdev/topology.hpp:93-97 | For every range that stays inside the pool, the whole new state. |
| Manifold.SubstrateManifold.ClearSlot | src/vdev/topology.hpp:121-124 | Empties slot number slot mod 1024 and touches nothing else. |
| Manifold.SubstrateManifold.ReadSlot | src/vdev/topology.hpp:105-111 | Copies at most sixteen bytes of the first cell of an occupied slot, none of an empty one. |
| Manifold.SubstrateManifold.WriteSlot | src/vdev/topology.hpp:113-119 | Marks the slot resident, overwrites at most sixteen bytes, and touches nothing else. |
| Manifold.SubstrateManifold.IsBlockResident | src/vdev/topology.hpp:126-129 | Answers for a slot of the pool, not for a block. |
| ManifoldRuns.RunNoDuplicates | src/vdev/topology.hpp:63-124 | No run of fetches, writes and slot clears ever leaves one block in two slots. |
| ManifoldRuns.OccupiedIsResident | src/vdev/topology.hpp:59-129 | No run enters the DIRTY state, so a slot holds a block exactly if it is RESIDENT, which is_block_resident reports. |
| ManifoldRuns.RunWindow | src/vdev/topology.hpp:63-74 | Without slot operations the last 1024 creations sit in the slots numbered by their index mod 1024, for any number of creations. |
| ManifoldRuns.FifoWindow | src/vdev/topology.hpp:63-74 | A block last created as number m is resident exactly if the number of creations n satisfies n <= m + 1024, also past the wrap of the counter; hits do not matter. |
| ManifoldRuns.NeverCreated | src/vdev/topology.hpp:63-74 | A block that was never created is never resident. |
| ManifoldRuns.ReadYourWrites | src/vdev/topology.hpp:63-97 | While a block is resident, every byte written since its creation reads as last written. |
| ManifoldRuns.FetchAfterRun | src/vdev/topology.hpp:86-97 | After any run a fetch from an absent block returns zeros, and one from a resident block the cell last written since creation, once all its bytes have been written. |
| Deadlines.TakenTracks | src/vdev/topology.hpp:63-74 | From any state and after any sequence of accesses with create: the counter, and for every block whether it is resident and in which slot, all told from the state before. |
| Deadlines.ResidentIff | src/vdev/topology.hpp:63-74 | A block is resident after any sequence of accesses exactly if the creations they cause have not passed its deadline, both computed from the state before. |
| Deadlines.ResidentAfterRunIff | src/vdev/topology.hpp:63-97 | The same after any run of fetches and writes. |
| BlockSweep.SweepDeadlines | src/vdev/topology.hpp:63-74 | For consecutive blocks, creations and deadlines in closed form. |
| BlockSweep.SweptIff | src/vdev/topology.hpp:63-74 | Such a block is resident at the end exactly if it was found at its turn and its old slot outlasts all creations, or it was created and at most 1024 creations happened from its own on. |
| BlockSweep.BesideSweepIff | src/vdev/topology.hpp:63-74 | A block outside the range stays exactly as long as the creations have not reached its slot. |
| WriteBursts.BurstResident | src/vdev/topology.hpp:63-97 | A run of writes to at most 1024 blocks that were all absent leaves every one of them resident. |
| WriteBursts.BurstByte | src/vdev/topology.hpp:93-97 | In such a run the last write that covers a byte decides it. |
| WriteBursts.BurstFetch | src/vdev/topology.hpp:86-97 | Fetching a cell written in such a run and not written again returns it. |
| SubstrateService.SectorInBlock | src/vdev/substrate_service.hpp:71 | A sector write never crosses a block. |
| SubstrateService.SectorCell | src/vdev/substrate_service.hpp:57-59 | The 32 cells of a sector lie in its block, one after the other. |
| SubstrateService.WrappedSector | src/vdev/substrate_service.hpp:53-54 | Wrapping sum and product separately gives sector address (lba + i) * 512 modulo 2^64. |
| SubstrateService.SubstrateService.ServeWrite | src/vdev/substrate_service.hpp:65-90 | Without a disk, exactly the sector writes in order, with 64-bit and 32-bit wrap-around of addresses; always true. |
| SubstrateService.SubstrateService.ServeRead | src/vdev/substrate_service.hpp:42-63 | Exactly the sectors up to the first beyond capacity; true exactly if every sector lies below it; and the new high-water mark and horizon. |
| SubstrateService.SubstrateService.ReadSector | src/vdev/substrate_service.hpp:57-60 | Copies the 32 cells of a sector to their place and nothing else. |
| SubstrateService.SectorKept | src/vdev/substrate_service.hpp:65-71 | In any cache state, after a write each sector holds its data or has been evicted by later sectors of the same request. |
| SubstrateService.SectorReadBack | src/vdev/substrate_service.hpp:42-71 | In any cache state, a sector written and read back is its data if its block is resident and zeros otherwise. |
| SubstrateService.ServedIs | src/vdev/substrate_service.hpp:52-62 | Any read request: true exactly if every sector lies below the capacity. With j the first that does not, the buffer is what the j sectors before it leave, each position from the last of them that shares it, and every other byte stays; for j = 0 the whole buffer does. |
| SubstrateService.ServedWithin | src/vdev/substrate_service.hpp:42-63 | Where all sectors lie below the capacity a read of any number of them succeeds; as the 32-bit buffer offset comes round every 2^23 sectors, the last sector that shares a position of the buffer decides it. |
| SubstrateService.ServedBeyond | src/vdev/substrate_service.hpp:52-61 | Bytes of the buffer behind the positions a request uses are not touched. |
| SubstrateService.ReadBackIff | src/vdev/substrate_service.hpp:42-90 | In any cache state and for any number of sectors, reading back what was written gives the data exactly if, for each buffer position, the last sector that shares it has a resident block after the write, or the bytes are zeros. |
| RequestResidency.RequestSweeps | src/vdev/substrate_service.hpp:65-71 | A write request changes the directory of the cache exactly as taking in its blocks one after the other does. |
| RequestResidency.SectorResidentIff | src/vdev/substrate_service.hpp:65-71 | From any cache state, told from that state alone: the block of a sector is resident after the request exactly if it survives the creations of the request. |
| RequestResidency.WriteReadIff | src/vdev/substrate_service.hpp:42-90 | From any cache state, told from that state alone, and for any number of sectors: a write read back within capacity succeeds, and returns the data exactly if at every buffer position the bytes are zeros or the block of the last sector that shares the position survives the request. Up to 2^23 sectors each has its own position. |
| RequestResidency.FirstBlockLostIff | src/vdev/substrate_service.hpp:65-71 | A first block that was resident is lost exactly if the request creates more blocks than its slot is away from the victim slot. |
| SubstrateService.SectorLimit | src/vdev/substrate_service.hpp:65-71 | A request that touches at most 1024 blocks has at most 32768 sectors, so no 32-bit buffer offset wraps. |
| SubstrateService.WriteThenRead | src/vdev/substrate_service.hpp:42-90 | If all touched blocks were absent and number at most 1024, a read within capacity returns the written data and true. |
| RequestResidency.ResidentBlockLost | src/vdev/substrate_service.hpp:65-71 | A concrete instance: a resident block in the victim slot is lost when its absent successor is written in the same request. |
| Transducer.LogicTransducer.BurnAtom | src/core/logic_transducer.hpp:54-57 | A burn is one in-block write of 16 bytes with a zero high word. |
| Transducer.LogicTransducer.ResolveChain | src/core/logic_transducer.hpp:64-76 | The loop returns what following the script yields, and modifies nothing. |
| Transducer.ResolvedAppend | src/core/logic_transducer.hpp:64-76 | Resolving two scripts in sequence is resolving them as one, unless the first faults. |
| Transducer.LongestPrefix | src/core/logic_transducer.hpp:64-76 | In any state: prefixes fault exactly beyond the longest fault-free one, and the whole script returns that prefix's result. |
| Transducer.ResolvedIs | src/core/logic_transducer.hpp:64-76 | In any state: every word found on the fault-free prefix is nonzero in one of its halves, the answer behind it is returned, and a fault means that the next word is zero in both halves. |
| Transducer.BurntFetch | src/core/logic_transducer.hpp:54-68 | Each intent of a burnt chain fetches its own result. |
| Transducer.BurntChainResolves | src/core/logic_transducer.hpp:54-76 | A chain burnt into absent blocks (at most 1024, distinct cells) resolves to its last result without fault exactly if no result is zero. |
| BurnResidency.CellAfterRun | src/core/logic_transducer.hpp:54-57 | From any cache state, every cell of the pool holds the last burn into it, told from the state before and the burns alone. |
| BurnResidency.FetchedAfterIs | src/core/logic_transducer.hpp:54-68 | From any cache state, what a fetch finds after any burns, told from the state before and the burns alone. |
| BurnResidency.ChainResolvesIff | src/core/logic_transducer.hpp:54-76 | From any cache state, with intents anywhere: every prefix of a burnt chain resolves without fault to its burnt result exactly if the answer of each step is found where its fetch looks. |
| BurnResidency.KeptAnswer | src/core/logic_transducer.hpp:54-76 | An answer is found if its result is not zero, no later burn shares its cell, and the burns create no more blocks than the deadline its block has right after it. |
| AuditLog.EntryFields | src/vdev/audit_log.hpp:33-35 | The event type is the top byte over the mark, as the shift and `\|` build it, and the metadata is the low word. |
| AuditLog.LogCell | src/vdev/audit_log.hpp:17-31 | All log addresses lie in one block; head i addresses cell i, and the 16 bytes stay inside. |
| AuditLog.AuditLogger.Log | src/vdev/audit_log.hpp:30-40 | Writes the entry at the head and advances the head modulo 1024. |
| AuditLog.LogHolds | src/vdev/audit_log.hpp:30-40 | Interleaved with any other traffic that never evicts the log's block, cell i holds the latest event whose index is i mod 1024. |
| AuditLog.EventsRecovered | src/vdev/audit_log.hpp:30-40 | The last min(n, 1024) events come back in order. |
| AuditLog.UndisturbedIff | src/vdev/audit_log.hpp:30-40 | From any cache state, with other users that clear no slot and write elsewhere: the log's block is never lost exactly if the creations do not pass its deadline, told from the state before: the distance of its slot if the first event finds it there, and 1024 creations from the first event on otherwise. |
| AuditLog.DeadlineFromEmpty | src/vdev/audit_log.hpp:30-40 | From an empty cache that is 1024 creations, the block's own among them. |
| AuditLog.EventsRecoveredWithin | src/vdev/audit_log.hpp:30-40 | Under that condition the last min(n, 1024) events come back in order. |
| StateEngine.AddressIsOr | src/core/state_engine.hpp:28 | The address is state * 1024 + input mod 1024, equal to the source's shift and `\|`. |
| StateEngine.NextEngineIs | src/core/state_engine.hpp:27-61 | A step with its constants written out: below 64 a masked exclusive or; from 64 on the fetched route unless it is 0x3FD or 0x3FE, then the masked exclusive or, and the accumulator restarts. |
| StateEngine.StateEngine.Reset | src/core/state_engine.hpp:14-17 | Sets the state and clears the accumulator. |
| StateEngine.StateEngine.Step | src/core/state_engine.hpp:27-61 | New state and result fields in the speculative, the valid and the invalid case. |
| StateEngine.Cadence | src/core/state_engine.hpp:27-61 | From reset, and whatever other users do to the manifold between steps, step t consults it exactly if t mod 65 = 64, so n steps make n/65 fetches. |
| StateEngine.FetchAddressBound | src/core/state_engine.hpp:27-44 | Whatever the 16-bit start state and the changes of the manifold, every fetched address is below 2^20. |
| StateEngine.AbsentLeadsToZero | src/core/state_engine.hpp:44-52 | A consulting step on an absent block fetches route 0, which counts as valid, and leads to state 0. |
| StateEngine.WindowState | src/core/state_engine.hpp:35-41 | Inside a window the state is the masked exclusive or of the start state and all inputs so far. |
| StateEngine.WindowPermuted | src/core/state_engine.hpp:35-41 | Permuting the inputs of a window leaves its end state the same. |
| PredictiveEngine.StaleBitsIgnored | src/core/predictive_topology.hpp:40-43 | Whether a guess is confirmed does not depend on the uninitialised bits of its high word. |
| PredictiveEngine.GuessBits | src/core/predictive_topology.hpp:41-43 | A guess has lo = (vaddr * 0x517CC1B727220A95 mod 2^64) ^ 0x9E3779B97F4A7C15, the speculative route in bits 54 to 63, zeros in bits 52 and 53 and the old bits below. |
| PredictiveEngine.AgreesIff | src/core/predictive_topology.hpp:67 | A record agrees exactly if the fetched low word equals the predicted one and bits 54 to 63 of the two high words are equal. |
| PredictiveEngine.PredictiveEngine.SpeculativeFetch | src/core/predictive_topology.hpp:40-55 | Appends the record if fewer than 255 are outstanding; with 255 the ring becomes empty. |
| PredictiveEngine.PushedPending | src/core/predictive_topology.hpp:45-52 | The same about the ring indices: 255 outstanding plus one push is an empty ring. |
| PredictiveEngine.PredictiveEngine.CheckNext | src/core/predictive_topology.hpp:58-73 | One turn commits the oldest record if its fetched low word and bits 54 to 63 of the high word are the predicted ones, otherwise drops everything left. |
| PredictiveEngine.Confirmed | src/core/predictive_topology.hpp:67-72 | The committed prefix is the longest one whose low words and routes the substrate confirms. |
| PredictiveEngine.PredictiveEngine.VerifyConsensus | src/core/predictive_topology.hpp:57-74 | Without concurrent pushes: ends with head equal to tail after committing, in push order, records whose fetched low word and route bits are the predicted ones; if records are left, the first of them differs from its cell in one of the two, and rollback is signalled exactly then. |
| PredictiveEngine.SafeIffDisciplined | src/core/predictive_topology.hpp:40-74 | From every ordered state, one load or store of either side is safe exactly if it keeps the discipline. Safe: nothing either side does afterwards within the discipline makes a commit, a loaded word or the outcome of a new check wrong. Discipline: a record is published onto at most 254 pending ones, or onto 255 while a check is under way; a store onto 256 changes no word that check still has to load; a rollback comes between pushes, or with 256 pending. |
| PredictiveEngine.OrderedIffDisciplined | src/core/predictive_topology.hpp:40-74 | The same actions are those that keep the invariant on which both sides rely. |
| PredictiveEngine.RunSafeIff | src/core/predictive_topology.hpp:40-74 | Every state of a run of single loads and stores, in any interleaving, is safe exactly if every action of it keeps the discipline. |
| PredictiveEngine.CarefulFollows | src/core/predictive_topology.hpp:40-74 | What a caller can check is enough: a push that begins on fewer than 255 pending records, and rollbacks between pushes, always keep the discipline. |
| PredictiveEngine.InterleavedOrder | src/core/predictive_topology.hpp:40-74 | In a disciplined run from the start the commits are always a prefix of the published records; the consumer loads only fully written records, the oldest first, commits them in push order, and a check finds a record exactly if one is pending; the three words of a record may be stored and loaded in any order. |
| PredictiveEngine.RollbackDuringPushRevives | src/core/predictive_topology.hpp:45-70 | From every ordered state with at most 254 pending records, after a rollback at any point of a push the next check reads the rolled-back record instead of the pushed one. |
| PredictiveEngine.RollbackDuringFullPushHides | src/core/predictive_topology.hpp:45-70 | With 255 pending records the pushed record is hidden instead: head meets tail in front of it. |
| PredictiveEngine.PublishOntoFullHides | src/core/predictive_topology.hpp:51-58 | From every ordered state with 255 pending records and no check under way, publishing one more makes head meet tail, and a check finds none of the 256 records. |
| PredictiveEngine.PublishDuringCheckRecovers | src/core/predictive_topology.hpp:51-72 | Published while a check is under way, the 256 records stay reachable, and the end of the check restores room. |
| Evaporate.AbsorbedInjective | src/vdev/context_driven_engine.hpp:13-20 | Absorbing the same bytes keeps different contexts different. |
| Evaporate.AbsorbIs | src/vdev/context_driven_engine.hpp:13-20 | Absorbing a byte, with the products, rotations by 7 and 11 and shifts by 32 written as arithmetic. |
| Evaporate.NoiseStartIs | src/vdev/context_driven_engine.hpp:58-59 | The noise starts from the seed mixed with slot and basis under the four constants of the source. |
| Evaporate.NoiseBit | src/vdev/context_driven_engine.hpp:56-66 | Every bit of a noise byte is a bit of lo for the first eight positions of a stride and of hi for the others, after entry + 1 steps. |
| Evaporate.FinishIs | src/vdev/context_driven_engine.hpp:34-37 | The finishing of a check: two shifts by 33 around one product modulo 2^64, and the lowest byte. |
| Evaporate.PositionCrcIs | src/vdev/context_driven_engine.hpp:32-38 | Every bit that the check of a position mixes. |
| Evaporate.CandidateCrcIs | src/vdev/context_driven_engine.hpp:40-54 | Every bit that the check of a candidate mixes. |
| Evaporate.ProbeIs | src/vdev/context_driven_engine.hpp:103-117 | The probe starts as the context and absorbs k mod 256 after candidate k. |
| Evaporate.BothMustAgree | src/vdev/context_driven_engine.hpp:106-112 | A candidate is a hit exactly if both its noise byte and its check agree: the right byte with the wrong check is none. |
| Evaporate.NoiseLoop | src/vdev/context_driven_engine.hpp:60-63 | The 16-bit counter loop applies entry + 1 mixing steps, for every entry below 65535. |
| Evaporate.NoiseLoopEnds | src/vdev/context_driven_engine.hpp:60 | The loop's exit test can come true exactly if entry is not 65535. |
| Evaporate.EveryNoiseLoopEndsIff | src/vdev/context_driven_engine.hpp:97-109 | All noise loops of a layer end exactly for inputs of at most 917490 bytes. |
| Evaporate.Search | src/vdev/context_driven_engine.hpp:102-118 | The candidate loop finds a hit exactly if one of the 2048 candidates reproduces byte and check. |
| Evaporate.EvaporateLayer | src/vdev/context_driven_engine.hpp:92-129 | For inputs on which it ends, the stream is the one determined by which bytes are hits; the 32-bit distance never wraps. |
| Evaporate.StreamLocatesMisses | src/vdev/context_driven_engine.hpp:92-129 | Correction k sits at (sum of distances 0..k) + k and carries that byte and its parity; every miss has a correction; distances, corrections and trailing hits add up to the length. |
| Evaporate.PositionsIncrease | src/vdev/context_driven_engine.hpp:119-125 | Corrections come in strictly increasing positions. |
| Evaporate.LocatedIffNotReproduced | src/vdev/context_driven_engine.hpp:97-126 | A correction points at a position exactly if none of the 2048 candidates under the context of the bytes before it reproduces the byte with matching check. |
| Evaporate.UncorrectedIff | src/vdev/context_driven_engine.hpp:97-126 | A position gets no correction exactly if for some k < 2048, with slot = lo mod 1024 and basis = hi mod 64 of probe k, the noise byte equals the data byte and the check of the candidate equals that of the position. |
| Evaporate.InterleavingRebuilds | src/vdev/context_driven_engine.hpp:119-128 | Interleaving the hit bytes with the corrections as the distances say rebuilds the input. |
| Evaporate.HealingRestoresValue | src/vdev/context_driven_engine.hpp:71-89 | Whatever happens to the value of a correction alone, healing restores it. |
| Evaporate.ParityBit | src/vdev/context_driven_engine.hpp:76-78 | Every bit of the parity: value plus the two low bytes of the distance. |
| BlockFold.StreamsFull | src/crypto/sha256.hpp:64-77 | Bytes that complete the buffered block let it be folded in; the buffer then represents no byte. |
| BlockFold.StreamsPartial | src/crypto/sha256.hpp:66-82 | Bytes that do not complete the block only join the buffer. |
| Sha256Spec.FromFourIsOr | src/crypto/sha256.hpp:36-37 | The words of a block are the source's shifts joined by `\|`. |
| Sha256Spec.WordBytesJoin | src/crypto/sha256.hpp:94-99 | The four bytes written for a word are those from which the block loader reads the same word. |
| Sha256Spec.PaddingInjective | src/crypto/sha256.hpp:85-93 | The padding of section 5.1.1 of FIPS 180-4 is injective on messages below 2^61 bytes. |
| Sha256Spec.Rotr32Bit | src/crypto/sha256.hpp:15 | Bit i of a word rotated right by n is bit (i + n) mod 32. |
| Sha256Spec.Shr32Bit | src/crypto/sha256.hpp:20-21 | Bit i of a word shifted right by n is bit i + n, or zero. |
| Sha256Spec.ChBit | src/crypto/sha256.hpp:16 | Each bit of Ch is the bit of y where x has a one and the bit of z otherwise. |
| Sha256Spec.MajBit | src/crypto/sha256.hpp:17 | Each bit of Maj is the majority of the three. |
| Sha256Spec.BigSigma0Bit | src/crypto/sha256.hpp:18 | Each bit is the sum of bits i + 2, i + 13 and i + 22, around the end. |
| Sha256Spec.BigSigma1Bit | src/crypto/sha256.hpp:19 | Each bit is the sum of bits i + 6, i + 11 and i + 25, around the end. |
| Sha256Spec.SmallSigma0Bit | src/crypto/sha256.hpp:20 | Each bit is the sum of bits i + 7 and i + 18, around the end, and i + 3 if there is one. |
| Sha256Spec.SmallSigma1Bit | src/crypto/sha256.hpp:21 | Each bit is the sum of bits i + 17 and i + 19, around the end, and i + 10 if there is one. |
| Sha256Constants.RoundConstantIsRoot | src/crypto/sha256.hpp:25-34 | Round constant t is the first 32 bits behind the point of the cube root of entry t of a table of primes from 2 to 311. |
| Sha256Constants.CubeRootBitsUnique | src/crypto/sha256.hpp:25-34 | No other word has that property for the same prime. |
| Sha256Constants.InitialValueIsRoots | src/crypto/sha256.hpp:57-60 | The initial state is the same bits of the square roots of the first eight primes. |
| Sha256Constants.SquareRootBitsUnique | src/crypto/sha256.hpp:57-60 | Nor has any other word that of the square roots. |
| Sha256Machine.ChNum | src/crypto/sha256.hpp:16 | Ch on 32-bit machine words, with the operators of the source, denotes the Ch of the specification. |
| Sha256Machine.MajNum | src/crypto/sha256.hpp:17 | The same for Maj. |
| Sha256Machine.TurnedNum | src/crypto/sha256.hpp:45-48 | A turn of the round loop on machine words denotes a step of the specification. |
| Sha256Machine.ExpandedNum | src/crypto/sha256.hpp:39 | The schedule expression on machine words denotes that of the specification. |
| Sha256Example.AbcDigest | src/crypto/sha256.hpp:23-100 | The specification maps the bytes of abc to the digest that FIPS 180-4 publishes, ba7816bf...f20015ad, derived through all 64 rounds. |
| Sha256.SHA256.constructor | src/crypto/sha256.hpp:56-62 | The initial state represents the empty message. |
| Sha256.SHA256.FillSchedule | src/crypto/sha256.hpp:36-39 | The message schedule of section 6.2.2, step 1, in place. |
| Sha256.SHA256.Transform | src/crypto/sha256.hpp:23-53 | One block in place: the compression of section 6.2.2. |
| Sha256.SHA256.Update | src/crypto/sha256.hpp:64-83 | For any state of the buffer and any length: afterwards the object represents the old message followed by the data. |
| Sha256.SHA256.Finalize | src/crypto/sha256.hpp:85-100 | The output is the digest of the represented message with its bit count modulo 2^64. |
| Sha256.ConcatJoins | src/crypto/sha256.hpp:64-83 | The whole message is its chunks one behind the other, wherever it is cut. |
| Sha256.DigestOfChunks | src/crypto/sha256.hpp:56-100 | Any split of a message below 2^61 bytes into updates yields the SHA-256 digest of the whole. |
| Sha256.VerifySeed | src/crypto/sha256.hpp:102-112 | True exactly if the expected hash is the SHA-256 digest of the sixteen seed bytes. |
| Graphics.Graphics.PutPixel | src/hal/vga.hpp:63-66 | With x below the width and y below the height exactly word y * stride + x takes the colour; otherwise nothing changes. |
| Graphics.PaintedAllAt | src/hal/vga.hpp:63-66 | After painting points in order, a screen pixel has the colour exactly if one of them covers it or it had it already. |
| Graphics.PaintedWord | src/hal/vga.hpp:63-66 | The word in column x of row y of the buffer changes only if x is below the width and the point is among those painted; row padding never does. |
| Graphics.StepOnLine | src/hal/vga.hpp:138-140 | Short of the end the longer side always advances, the other by at most one, neither overshoots, and the deviation stays bounded. |
| Graphics.BothEndsTogether | src/hal/vga.hpp:136-137 | Where one side is used up the other is too, so the exit test is met. |
| Graphics.SidesFitLine | src/hal/vga.hpp:135-140 | Lines whose sides are at most 715827882, and longer ones near a diagonal or along an axis, never overflow the 32-bit error arithmetic. |
| Graphics.WalkIsLine | src/hal/vga.hpp:130-143 | max(dx, dy) + 1 points from one end to the other, each 8-adjacent to the next, with 2 * abs(j*dx - i*dy) <= max(dx, dy) after i and j steps. |
| Graphics.WalkExact | src/hal/vga.hpp:130-143 | Exactly which points: point k lies k steps along the longer side, and its distance j along the other satisfies -dx <= 2 (j dx - k dy) < dx, or the mirrored bound when y leads, so every tie is decided. |
| Graphics.Graphics.Advance | src/hal/vga.hpp:138-140 | One turn of the loop moves point and error to the next step of the walk, in 32-bit signed arithmetic. |
| Graphics.Graphics.DrawLine | src/hal/vga.hpp:130-143 | Whenever the 32-bit arithmetic of the source does not overflow, the unguarded loop ends, on every screen, and the buffer is the old one with exactly the points of the walk painted. |
| PageTables.OrFlags | src/boot/boot.S:61-82 | Setting flag bits of a page-aligned address adds them. |
| PageTables.Boot.SetupPaging | src/boot/boot.S:60-94 | From zeroed tables, every entry ends up with its final value; no store is out of bounds and no 32-bit result wraps. |
| PageTables.Boot.FillP3 | src/boot/boot.S:65-75 | Exactly four third-level entries are stored, one per second-level table. |
| PageTables.Boot.MapP2 | src/boot/boot.S:77-85 | Exactly 2048 page entries are stored, mapping 2 MiB each. |
| PageTables.IdentityMapped | src/boot/boot.S:33-35 | The four-level walk of section 4.5 of the Intel manual, volume 3A, maps a 48-bit address exactly if it is below 2^32, then to itself, writable and supervisor-only; every other one is a not-present fault. |

## Left out

- The memory-filling and random-walk passes of the key derivation, and its password hashing: only the final rounds have a property of their own.
- File system errors: images are byte sequences, so a failing open or a failing write is not modelled; a file that ends early is.
- `phase_fold` and the physical-disk branch of `serve_write`: only an encoder exists, into fixed buffers; the disk pointer is null here, and the byte counters that only that branch updates are absent.
- `utilize_idle_cycles`, `get_match_rate_scaled`, and the symbol table, `resolve_spatial` and the AES round of the transducer: easy members.
- `write_slot` in runs: it can revive an old block number (`ManifoldModel.SlotWrittenUniqueIff`), so the statements about runs exclude it.
- The stubs of the manifold (`initialize`, `save_image`, `load_image`, the block counts) and the abstract `Topology` interface: its clients are modelled over the one implementation.
- `residue_persistence.hpp`: it uses names that are declared nowhere and does not read back what it writes.
- Inputs of the outside world are parameters: the pool bytes at construction, the bits of an uninitialised high word (`stale`), and the route constant of speculative guesses, whose declaration is not part of the repository. A speculative result of the state engine leaves its remaining high-word bits out.
- The rollback interrupt is a boolean result; the loads and stores between two barriers may come in any order, but anything weaker is not modelled.
- Fields read before anything assigns them (the seed of a topology before initialize, old block numbers of empty slots) start with fixed values.
- The rest of `vga.hpp`, device and processor code, allocators, key generators and the user interface.
- In `boot.S`, everything but the page tables: control registers other than CR3, the descriptor table and the jump to 64-bit code.
- Manifold.SubstrateManifold.MaterializeRange: requires the copy to stay inside the pool, as the source writes to foreign memory otherwise. Statements about runs are limited to ranges inside a block; burns, log entries and sector writes all meet that, which is proved.
- Evaporate.EvaporateLayer: requires at most 917490 bytes, because beyond that the source does not terminate.
- Evaporate.NoiseLoop: requires an entry below 65535 for the same reason.
- Graphics.Graphics.DrawLine: requires a pitch of at least the width, so that no visible pixel lies outside the buffer, and a line whose error arithmetic does not overflow, which is undefined in the source.
- PageTables.Boot.SetupPaging: requires the tables to be page-aligned, zeroed and below 4 GiB, which the linker and the boot loader provide.
- PredictiveEngine.InterleavedOrder: one producer and one consumer only.
- Sha256.DigestOfChunks: messages from 2^61 bytes on are covered by Finalize, with the bit count modulo 2^64.
