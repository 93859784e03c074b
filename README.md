# A verified model of a small proof-of-work ledger

The system is a C++ proof-of-work blockchain node. It has four cores, and this project models each of them in Dafny and proves what their code promises.

- **The block** (`CBlock`). A block has:
  - a 32-byte hash and a 32-byte previous hash;
  - a creation timestamp and a 32-bit nonce;
  - a growable payload.

  The block can hash its serialised fields and test the hash for leading zero bytes. It mines by incrementing the nonce until the test passes, renders hashes as lowercase hex, and checks its own consistency. SHA-256 is a parameter, `sha: Hasher`, so every statement about hashing holds for any function from bytes to 32-byte digests.
- **The chain** (`CChain`). The chain is a sequence of blocks, oldest first, whose last element is the tip; each block points to its predecessor. `NextBlock` reseals the tip, saves it when asked, and mines a new tip after it. `Load` replaces the chain with what storage holds. `IsValid` walks back from the tip and checks every block except the tip. `Chains.Start` models the constructor: a mined genesis block, then `load`. A null storage backend stands for `CStorageNone`, whose operations do nothing.
- **Local storage** (`CStorageLocal`). The store keeps one file per block, named by the hex hash under a base directory, plus a `metadata` manifest of key/value pairs.
  - The directory is a `map<string, seq<uint8>>` held in the store object. Integers are written little-endian, and `time_t` is 8 bytes.
  - The block file format is modelled in `Storage.BlockFile` / `Storage.ParseBlockFile`, the manifest format in `Manifest.Encode` / `Manifest.Decode`.
  - `loadChain`'s backward walk is modelled in `Storage.Walk` / `Storage.ChainOnDisk`, against which the imperative `LoadChain` is proved.
  - The proofs give two round trips: saving a chain block by block and loading it yields the same chain, and a manifest without empty keys reloads as itself.
- **The wire codec** (`INet`, `CPacket`, `DPacket`).
  - 32-bit words travel in network byte order; a 64-bit value is sent as its high word, then its low word.
  - Payloads move in chunks of at most 2048 bytes.
  - A packet is its version, message type, 64-bit size and payload.
  - A socket is modelled as the peer's incoming bytes with a read cursor, the bytes sent so far, a per-call transfer `window` that allows short transfers, and a `broken` flag under which every call returns -1.

The modules follow the source:

| module | file | source |
|---|---|---|
| `Bytes` | bytes.dfy | fixed-width integers, little- and big-endian byte strings, two's-complement casts |
| `Blocks` | blocks.dfy | CBlock.cpp |
| `Manifest` | manifest.dfy | the metadata file of CStorageLocal.cpp |
| `Storage` | storage.dfy | block files and the chain on disk as functions |
| `Store` | store.dfy | CStorageLocal as a class |
| `Chains` | chain.dfy | CChain.cpp |
| `Packets` | packets.dfy | EMessageType.h, DPacket.h, CPacket.h |
| `Net` | net.dfy | INet.cpp |

In two places the model follows the code rather than the headers:

- **Packet type.** `INet.h` declares `recvPacket`/`sendPacket` over `CPacket`, but `INet.cpp` defines them over `DPacket`, whose size field is 64-bit. The model uses `DPacket`.
- **`recvUInt64`.** `sendUInt64` writes both words and the function's type is `uint64_t`, but `recvUInt64` shifts the low word right by 32 (`src/blockchain/net/INet.cpp:77`), so only the high word survives. The model keeps this arithmetic, and the lemmas state exactly what is and is not recovered.

## Model

| member | source | states |
|---|---|---|
| Bytes.FromLEOfLE | src/blockchain/storage/CStorageLocal.cpp:104-114 | a little-endian integer field reads back as the value written |
| Bytes.LEOfFromLE | src/blockchain/storage/CStorageLocal.cpp:104-114 | every byte string of a field is the encoding of the value read from it |
| Bytes.LEInjective | src/blockchain/CBlock.cpp:44-51 | distinct values have distinct native encodings |
| Bytes.FromBEOfBE | src/blockchain/net/INet.cpp:43 | ntohl inverts htonl: a big-endian word reads back as the value written |
| Bytes.BEOfFromBE | src/blockchain/net/INet.cpp:43 | every 4-byte string is the network encoding of the word read from it |
| Bytes.BEWords | src/blockchain/net/INet.cpp:82-83 | the 8-byte big-endian form of x is the big-endian high word then the big-endian low word |
| Bytes.CastRoundTrips | src/blockchain/net/INet.cpp:58-63 | the int32/uint32 and int64/uint64 casts are mutually inverse |
| Blocks.ZeroDigestIsOnlyZero | src/blockchain/CBlock.cpp:15-19 | a digest has no non-zero byte exactly when it is the all-zero digest |
| Blocks.HashInput | src/blockchain/CBlock.cpp:36-52 | the hash input is 32 + 8 + payload + 4 bytes long |
| Blocks.HashInputInjective | src/blockchain/CBlock.cpp:36-52 | the hash input determines prevHash, timestamp, payload and nonce |
| Blocks.NoDifficultyAlwaysHolds | src/blockchain/CBlock.cpp:108-116 | difficulty 0 accepts every hash |
| Blocks.Hex | src/blockchain/CBlock.cpp:73-85 | two lowercase hex digits per byte, high nibble first, in byte order |
| Blocks.UnhexOfHex | src/blockchain/CBlock.cpp:73-85 | reading the hex string back gives the bytes |
| Blocks.HexInjective | src/blockchain/CBlock.cpp:73-85 | different hashes render differently |
| Blocks.HexString | src/blockchain/CBlock.cpp:78-82 | the loop builds exactly the hex rendering |
| Blocks.AnyNonZero | src/blockchain/CBlock.cpp:135-140 | true exactly when some byte is non-zero |
| Blocks.NonceStep | src/blockchain/CBlock.cpp:122 | one more increment of the wrapping nonce is one more attempt |
| Blocks.Block.constructor | src/blockchain/CBlock.cpp:9-26 | prevHash is the predecessor's hash or zero; nonce 0; empty payload; a given hash is kept, otherwise the block is sealed |
| Blocks.Block.CalculateHash | src/blockchain/CBlock.cpp:34-64 | only the hash changes, to the digest of the serialised fields |
| Blocks.Block.ComputeHash | src/blockchain/CBlock.cpp:58-59 | returns the digest of the fields and changes nothing |
| Blocks.Block.GetHashStr | src/blockchain/CBlock.cpp:73-85 | the 64-character hex rendering of the hash |
| Blocks.Block.GetPrevHashStr | src/blockchain/CBlock.cpp:158-170 | the 64-character hex rendering of prevHash |
| Blocks.Block.AppendData | src/blockchain/CBlock.cpp:93-106 | the payload becomes old payload ++ bytes; nothing else changes |
| Blocks.Block.IsDifficulty | src/blockchain/CBlock.cpp:108-116 | true exactly when the first `difficulty` hash bytes are zero |
| Blocks.Block.Mine | src/blockchain/CBlock.cpp:118-126 | success exactly when the difficulty holds; the nonce advances by one per attempt, mod 2^32; already mined means no change; every earlier nonce missed |
| Blocks.Block.HasHash | src/blockchain/CBlock.cpp:133-141 | true exactly when the hash is not all zero |
| Blocks.Block.HasPrevHash | src/blockchain/CBlock.cpp:143-151 | true exactly when prevHash is not all zero |
| Blocks.Block.SetPrevHash | src/blockchain/CBlock.cpp:172-175 | sets prevHash only |
| Blocks.Block.SetPrevBlock | src/blockchain/CBlock.cpp:177-181 | links to b and copies b's hash into prevHash |
| Blocks.Block.SetCreatedTS | src/blockchain/CBlock.cpp:188-191 | sets the timestamp only |
| Blocks.Block.SetNonce | src/blockchain/CBlock.cpp:193-196 | sets the nonce only |
| Blocks.Block.SetAllocatedData | src/blockchain/CBlock.cpp:208-214 | replaces the payload; it stays hashable exactly when it fits the 32-bit buffer size |
| Blocks.Block.IsValid | src/blockchain/CBlock.cpp:216-222 | true exactly when the stored hash is the digest of the current fields; changes nothing |
| Chains.Values | src/blockchain/CChain.cpp:68 | the snapshot of the chain's block objects, element by element |
| Chains.Resealed | src/blockchain/CChain.cpp:64 | the block with its hash recomputed from its fields, all other fields kept |
| Chains.TamperDetected | src/blockchain/CChain.cpp:100-109 | changing a non-tip payload without rehashing keeps the chain valid only through a SHA-256 collision |
| Chains.TipUnchecked | src/blockchain/CChain.cpp:100-109 | whatever the tip holds, the validity verdict is the same |
| Chains.NextKeepsSealed | src/blockchain/CChain.cpp:62-72 | resealing the tip and appending a new block keeps the validity verdict |
| Chains.NewMinedBlock | src/blockchain/CChain.cpp:67-69 | a fresh sealed empty block after prev, mined, or every tried nonce misses |
| Chains.Chain.constructor | src/blockchain/CChain.cpp:18-21 | one fresh genesis block with no predecessor and a zero prevHash, sealed, mined, and the tip |
| Chains.Chain.AppendToCurrentBlock | src/blockchain/CChain.cpp:57-60 | only the tip's payload changes, by appending the bytes |
| Chains.Chain.NextBlock | src/blockchain/CChain.cpp:62-72 | one block longer; the old tip resealed and, when asked, saved with the old length; the new tip fresh, linked to the old, sealed, mined; earlier blocks unchanged |
| Chains.Chain.ResealTip | src/blockchain/CChain.cpp:64 | only the tip's hash changes, to the digest of its fields |
| Chains.Chain.SaveTip | src/blockchain/CChain.cpp:65-66 | with local storage and save set, the store's manifest and files are those after saving the tip; otherwise no change |
| Chains.Chain.Grow | src/blockchain/CChain.cpp:67-71 | pushes a fresh mined block linked to the old tip and makes it the tip |
| Chains.Chain.Load | src/blockchain/CChain.cpp:87-93 | fails exactly when storage holds a broken chain, then keeping the blocks; otherwise takes the stored chain and, exactly when it has more than one block, reseals its tip and starts a fresh block after it, created now, linked to the old tip's hash, sealed, and mined or with every nonce tried |
| Chains.Chain.TakeLoaded | src/blockchain/CChain.cpp:89 | the chain's values become what storage holds, or are kept when it holds none |
| Chains.Chain.Adopt | src/blockchain/CChain.cpp:89-90 | the loaded blocks, if any, become the chain, and the last of them the tip |
| Chains.Chain.GetBlockCount | src/blockchain/CChain.cpp:95-98 | the number of blocks |
| Chains.Chain.IsValid | src/blockchain/CChain.cpp:100-109 | true exactly when every block before the tip is sealed; a one-block chain is valid |
| Chains.Start | src/blockchain/CChain.cpp:8-24 | the genesis chain, then load: with nothing stored or a load error, one sealed genesis block, mined or with every nonce tried; otherwise the stored chain, extended exactly when longer than one by a fresh block linked to the old tip's hash, sealed, and mined or with every nonce tried |
| Chains.AppendFresh | src/blockchain/CChain.cpp:67-68 | pushing a fresh block linked to the tip keeps the chain linked |
| Packets.Ordinal | src/blockchain/net/EMessageType.h:8-16 | the wire value of each message type, 0 for EMT_NULL |
| Packets.TypeOf | src/blockchain/net/EMessageType.h:8-16 | the inverse of Ordinal, defined exactly on 0..6 |
| Packets.OrdinalInjective | src/blockchain/net/EMessageType.h:8-16 | distinct types have distinct wire values |
| Packets.NewDPacket | src/blockchain/net/DPacket.h:18-24 | version 1, type EMT_NULL (0), size 0, no data |
| Packets.CPacket.constructor | src/blockchain/net/CPacket.h:19-23 | the packet is in its reset state, nothing released |
| Packets.CPacket.DestroyData | src/blockchain/net/CPacket.h:29-37 | frees and nulls the data exactly when tracked and non-null; tracking ends off |
| Packets.CPacket.Reset | src/blockchain/net/CPacket.h:39-46 | reset state (version 1, EMT_NULL, size 0, null, untracked), tracked data freed; idempotent |
| Packets.CPacket.SetData | src/blockchain/net/CPacket.h:48-53 | data, the size truncated to 32 bits, and tracking set; nothing else changes |
| Net.Transfer | src/blockchain/net/INet.cpp:99 | one call moves the least of request, bytes ready and window |
| Net.HighWord | src/blockchain/net/INet.cpp:82 | the value shifted right by 32 |
| Net.LowWord | src/blockchain/net/INet.cpp:83 | the low 32 bits: high * 2^32 + low is the value |
| Net.DecodeUInt64 | src/blockchain/net/INet.cpp:77 | the decoded value is the high word times 2^32; the low word never contributes |
| Net.RecvWord | src/blockchain/net/INet.cpp:38-44 | one recvUInt advances by what one recv moves, at most 4 bytes |
| Net.ReceivedPacket | src/blockchain/net/INet.cpp:14-25 | a packet with a fitting payload, or a stall at end of stream |
| Net.RecvWordOfWordBytes | src/blockchain/net/INet.cpp:38-51 | recvUInt reads back what sendUInt wrote |
| Net.ShortWordIsPadded | src/blockchain/net/INet.cpp:40-43 | a short read leaves zero low bytes in the word |
| Net.RecvIntOfSendInt | src/blockchain/net/INet.cpp:53-66 | recvInt reads back what sendInt wrote |
| Net.UInt64OnWire | src/blockchain/net/INet.cpp:80-88 | the two words sent are the 8-byte big-endian value |
| Net.RecvUInt64AsWritten | src/blockchain/net/INet.cpp:77 | recvUInt64 yields x with its low 32 bits cleared; it round-trips exactly when those bits are 0; below 2^32 it yields 0 |
| Net.SentHeader | src/blockchain/net/INet.cpp:27-36 | the packet on the wire: version, type, high and low size words, then the payload when size != 0 and data is set |
| Net.ReceivedHeader | src/blockchain/net/INet.cpp:14-21 | the receiver reads back the four header words |
| Net.EmptyPacketRoundTrip | src/blockchain/net/INet.cpp:14-36 | a packet without payload is received as sent |
| Net.DefaultPacketOnWire | src/blockchain/net/INet.cpp:27-36 | the default packet is 00 00 00 01 then 12 zero bytes, and is received back |
| Net.SmallPayloadIsLeftUnread | src/blockchain/net/INet.cpp:21-23 | a payload under 4 GiB decodes as size 0 and stays unread in the stream |
| Net.AlignedPayloadRoundTrip | src/blockchain/net/INet.cpp:14-36 | a payload whose size is a multiple of 2^32 is received as sent |
| Net.Connection.constructor | src/blockchain/net/INet.cpp:9-12 | a connection at the start of its stream with nothing sent |
| Net.Connection.Send | src/blockchain/net/INet.cpp:49 | -1 when broken; otherwise the first min(size, window) bytes are appended |
| Net.Connection.Recv | src/blockchain/net/INet.cpp:41 | -1 when broken; otherwise the next Transfer bytes are consumed |
| Net.Connection.SendUInt | src/blockchain/net/INet.cpp:46-51 | fails when broken; otherwise one send of the big-endian word |
| Net.Connection.RecvUInt | src/blockchain/net/INet.cpp:38-44 | fails when broken; otherwise the word RecvWord reads |
| Net.Connection.SendInt | src/blockchain/net/INet.cpp:61-66 | one send of the word of the unsigned cast |
| Net.Connection.RecvInt | src/blockchain/net/INet.cpp:53-59 | the signed cast of the word read |
| Net.Connection.SendUInt64 | src/blockchain/net/INet.cpp:80-88 | sends the high word, then the low word |
| Net.Connection.RecvUInt64 | src/blockchain/net/INet.cpp:68-78 | reads two words and decodes them as the code does |
| Net.Connection.SendData | src/blockchain/net/INet.cpp:107-120 | fails when broken and size > 0; otherwise appends exactly data[..size], in calls of at most 2048 bytes |
| Net.Connection.RecvDataAlloc | src/blockchain/net/INet.cpp:90-105 | consumes exactly size bytes and returns them, in calls of at most 2048 bytes; stalls when the stream ends first |
| Net.Connection.SendPacket | src/blockchain/net/INet.cpp:27-36 | fails on a null socket before any I/O; otherwise appends SentPacket |
| Net.Connection.RecvPacket | src/blockchain/net/INet.cpp:14-25 | fails on a null socket before any I/O; otherwise agrees with ReceivedPacket |
| Manifest.LeastUnique | src/blockchain/storage/CStorageLocal.cpp:228 | the first key in std::map order is unique |
| Manifest.Entry | src/blockchain/storage/CStorageLocal.cpp:230-240 | one record is 8 + name + value bytes; an empty name writes nothing |
| Manifest.ReadRecord | src/blockchain/storage/CStorageLocal.cpp:183-208 | a record read consumes exactly its bytes |
| Manifest.DecodeEntries | src/blockchain/storage/CStorageLocal.cpp:180-211 | zero records leave the map as it was |
| Manifest.Decode | src/blockchain/storage/CStorageLocal.cpp:160-215 | a file too short for the version or the count fails with that error, the map unchanged |
| Manifest.ReadRecordOfEntry | src/blockchain/storage/CStorageLocal.cpp:183-208 | reading a written record gives its name, value and the bytes after it |
| Manifest.DecodeRecords | src/blockchain/storage/CStorageLocal.cpp:180-211 | reading written records merges them in order |
| Manifest.MergePairs | src/blockchain/storage/CStorageLocal.cpp:210 | merging a map's entries in key order gives acc + m |
| Manifest.DecodeEntriesOfEntries | src/blockchain/storage/CStorageLocal.cpp:228-241 | reading all written entries merges the whole map |
| Manifest.EncodeParts | src/blockchain/storage/CStorageLocal.cpp:223-241 | the manifest is version, 8-byte count, then the entries |
| Manifest.RoundTrip | src/blockchain/storage/CStorageLocal.cpp:217-245 | loading a saved manifest without an empty key gives it back, without error |
| Manifest.EmptyNameBreaksRoundTrip | src/blockchain/storage/CStorageLocal.cpp:224-233 | an empty key is counted but not written, so loading fails at the last record after merging the rest |
| Storage.Latin1 | src/blockchain/storage/CStorageLocal.cpp:153-155 | the manifest key bytes, one per character |
| Storage.KeysDistinct | src/blockchain/storage/CStorageLocal.cpp:153-155 | the three manifest keys are different |
| Storage.BlockFile | src/blockchain/storage/CStorageLocal.cpp:140-149 | a block file is an 84-byte header plus the payload |
| Storage.BlockFileLayout | src/blockchain/storage/CStorageLocal.cpp:140-149 | where prevHash, timestamp, nonce, size and payload sit in the file |
| Storage.ReadChunks | src/blockchain/storage/CStorageLocal.cpp:118-124 | what the chunk loop reads is a prefix of the file's rest that fits the buffer |
| Storage.ParseBlockFile | src/blockchain/storage/CStorageLocal.cpp:71-132 | a load that succeeds had a full header and a payload of the recorded size |
| Storage.ReadChunksOfPrefix | src/blockchain/storage/CStorageLocal.cpp:118-124 | on any file part no longer than the payload, the loop reads all of it exactly when bytes remain at the start of the last chunk, and otherwise fails with a chunk read of nothing |
| Storage.ReadChunksPastPayload | src/blockchain/storage/CStorageLocal.cpp:118-124 | with any bytes after the payload, the loop reads the payload exactly when its size is a multiple of the chunk size, and otherwise overruns the buffer |
| Storage.NoLoadAboveLimit | src/blockchain/storage/CStorageLocal.cpp:118 | the 32-bit chunk counter wraps, so a size above 2^32 - 2048 never loads |
| Storage.HeaderFields | src/blockchain/storage/CStorageLocal.cpp:85-114 | any file that starts with a saved block's header yields that block's prevHash, timestamp, nonce and payload size |
| Storage.LoadOfTruncatedFile | src/blockchain/storage/CStorageLocal.cpp:71-132 | a saved file cut anywhere in its payload loads, with the unread tail of the buffer left as allocated, exactly when the cut falls in the last chunk; otherwise the chunk read fails |
| Storage.LoadWithTrailingBytes | src/blockchain/storage/CStorageLocal.cpp:71-132 | a saved file with any bytes appended loads as the block exactly when the payload size is a multiple of the chunk size; otherwise the last read overruns the buffer |
| Storage.ParseOfBlockFile | src/blockchain/storage/CStorageLocal.cpp:71-149 | loading a saved block file restores prevHash, timestamp, nonce and payload |
| Storage.BlockPathInjective | src/blockchain/storage/CStorageLocal.cpp:73-136 | different hashes have different files, and none is the metadata file |
| Storage.WalkSound | src/blockchain/storage/CStorageLocal.cpp:49-62 | a completed walk is linked from a zero prevHash to the start hash, hashes distinct, each block as its file loads |
| Storage.WalkOfStored | src/blockchain/storage/CStorageLocal.cpp:49-62 | walking from the newest stored block of a linked chain loads the chain |
| Storage.WalkOfLoaded | src/blockchain/storage/CStorageLocal.cpp:49-62 | the same for any chain whose blocks load as themselves |
| Storage.WalkCases | src/blockchain/storage/CStorageLocal.cpp:55-62 | the walk's steps: revisit diverges, a load error stops, a zero prevHash ends, otherwise it goes on |
| Storage.WalkFurther | src/blockchain/storage/CStorageLocal.cpp:55-62 | one more block loaded puts it in front of the walk's result |
| Storage.Followed | src/blockchain/storage/CStorageLocal.cpp:60 | a walk's result followed by later blocks |
| Storage.ChainOnDisk | src/blockchain/storage/CStorageLocal.cpp:43-69 | nothing is loaded exactly when the manifest has no LAST_BLOCK_HASH |
| Storage.ChainOnDiskSound | src/blockchain/storage/CStorageLocal.cpp:43-69 | a loaded chain is linked genesis to tip, ends at LAST_BLOCK_HASH, loads from its files, and has BLOCK_COUNT blocks |
| Storage.ChainOnDiskOfSaved | src/blockchain/storage/CStorageLocal.cpp:43-69 | a stored linked chain with matching manifest fields loads as itself |
| Storage.ChainOnDiskOfWalk | src/blockchain/storage/CStorageLocal.cpp:64-67 | the walk's result is accepted when its length matches BLOCK_COUNT |
| Store.DefaultBasePath | src/blockchain/storage/CStorageLocal.cpp:21-26 | a '/' is appended exactly when the path is longer than 1 and lacks it |
| Store.DefaultBasePathIdempotent | src/blockchain/storage/CStorageLocal.cpp:21-26 | normalising twice is normalising once |
| Store.Defaults.constructor | src/blockchain/storage/CStorageLocal.cpp:19 | the default base path is "data/" |
| Store.Defaults.SetDefaultBasePath | src/blockchain/storage/CStorageLocal.cpp:21-26 | the default becomes the normalised path |
| Store.DecodeFails | src/blockchain/storage/CStorageLocal.cpp:183-208 | a record that cannot be read stops the loop with its error |
| Store.DecodeRecord | src/blockchain/storage/CStorageLocal.cpp:183-210 | a record read is stored into the map and the loop goes on |
| Store.ReadVariable | src/blockchain/storage/CStorageLocal.cpp:183-208 | reads one record as Manifest.ReadRecord |
| Store.ReadVariables | src/blockchain/storage/CStorageLocal.cpp:180-211 | the loop leaves the map and error of Manifest.DecodeEntries |
| Store.LocalStorage.constructor | src/blockchain/storage/CStorageLocal.cpp:28 | the store over a directory, with an empty manifest |
| Store.LocalStorage.LoadMetaData | src/blockchain/storage/CStorageLocal.cpp:160-215 | no metadata file changes nothing; otherwise the map and error of Manifest.Decode |
| Store.LocalStorage.SaveMetaData | src/blockchain/storage/CStorageLocal.cpp:217-245 | the metadata file becomes Manifest.Encode of the map; nothing else changes |
| Store.LocalStorage.Save | src/blockchain/storage/CStorageLocal.cpp:134-158 | the block's file is written, the three keys are set, and the manifest is rewritten |
| Store.LocalStorage.Load | src/blockchain/storage/CStorageLocal.cpp:71-132 | the block's fields become what its file parses to, or the error, with fields set before the error kept |
| Store.LocalStorage.LoadLink | src/blockchain/storage/CStorageLocal.cpp:57-58 | a fresh block loaded from its file, or the walk's error |
| Store.LocalStorage.LoadBack | src/blockchain/storage/CStorageLocal.cpp:55-62 | the loop yields the blocks of Storage.Walk, ending with the first one loaded |
| Store.LocalStorage.LoadOlder | src/blockchain/storage/CStorageLocal.cpp:57-61 | one step: a fresh predecessor put in front and linked |
| Store.LocalStorage.LoadChain | src/blockchain/storage/CStorageLocal.cpp:43-69 | returns exactly what Storage.ChainOnDisk specifies, with a fresh tip |
| Store.OpenStorage | src/blockchain/storage/CStorageLocal.cpp:28-37 | a store whose manifest is the decoded metadata file, or empty without one |
| Store.SavedBlockLoads | src/blockchain/storage/CStorageLocal.cpp:134-149 | the file save writes loads back as the block |
| Store.SaveExtendsStored | src/blockchain/storage/CStorageLocal.cpp:134-158 | saving the next block of a stored chain with the new count makes storage hold the longer chain |
| Store.SavedMetaFields | src/blockchain/storage/CStorageLocal.cpp:153-155 | after save the manifest holds the raw hash and the 8-byte count |
| Store.StoredAfterWrite | src/blockchain/storage/CStorageLocal.cpp:137-156 | writing the next block's file and the manifest keeps the older block files |
| Store.LinkFront | src/blockchain/storage/CStorageLocal.cpp:59-60 | setPrevBlock and insert at the front keep the blocks linked |
| Store.ReadPayload | src/blockchain/storage/CStorageLocal.cpp:116-124 | the chunk loop reads what Storage.ReadChunks specifies |
| Store.ChunkStep | src/blockchain/storage/CStorageLocal.cpp:118-124 | one chunk read advances the loop by one step of ReadChunks |

## Left out

- Threads, the server and client (CServer, CClient), logging (CLog) and `main`: concurrency and process I/O outside the ledger.
- `distributeBlock` and `connectNewClient` of CChain: network fan-out. The second half of the constructor (`mServer->start()`), the client connection of the second constructor and the destructor are left out too.
- SHA-256 is an OpenSSL call: it is the `sha` parameter, an arbitrary function to 32-byte digests.
- `time(0)` is the `now`/`created` parameter. `usleep` is a delay and has no effect on the state.
- `mkdir`/`stat` in the CStorageLocal constructor: the directory is assumed to exist.
- `fopen` failing for writing makes save and saveMetaData skip silently. The model always writes.
- Memory management is left out: new/delete, `dispose()`, and the genesis block dropped by `chain->clear()`. Blocks are garbage-collected objects.
- Store.LocalStorage.LoadChain: freshness of the loaded block objects is stated only for the tip.
- The storage factory in `storage.cpp` is not modelled. The chain is given its backend: a LocalStorage, or null for CStorageNone, whose load and save do nothing. The factory's null result for an unknown storage type is not modelled.
- Blocks.Block.Mine: it stops after `fuel` attempts, where the source loops for ever. The contract says what holds when the fuel runs out.
- Chains.Chain.NextBlock, Chains.Chain.constructor, Chains.Chain.Load, Chains.Start and Chains.NewMinedBlock: the new block meets the difficulty only when mining succeeds within the fuel; otherwise every nonce tried is stated to miss.
- Blocks.Block.IsDifficulty: it requires a difficulty in 0..32. A negative difficulty compares as a huge unsigned value in the source and reads past the hash, as does one above 32.
- Blocks.Block.AppendData: it requires the payload to stay within the 32-bit hash-buffer size. Beyond that the source's sizes wrap around.
- Chains.Chain.AppendToCurrentBlock: the same payload-size requirement.
- Undefined behaviour in loadChain is modelled as an error, and the source's exceptions are errors in `Result` values:
  - `MalformedLastHash` and `MalformedCount`: a short or missing manifest field, which the source copies past its end;
  - `Diverged`: a cycle of hash links, on which the source never returns;
  - `BufferOverrun`: a chunk read past the payload buffer.
- Net.Connection.RecvDataAlloc: at end of stream the source spins for ever on zero-byte reads; the model returns `Stalled`.
- Bytes of a fresh buffer that are never read into are the `uninit` parameter.
- Store.LocalStorage.LoadChain: when a load throws part-way through loadChain, the source leaves a partly rebuilt vector. The model returns the error instead, and the chain keeps its blocks.
- Store.LocalStorage.LoadMetaData: the entries read before a failed record stay merged, as stated. Loading merges into the map the store already holds. Manifest.RoundTrip covers only an empty starting map.
- The socket is an explicit stream (`incoming`, `pos`, `outgoing`) with a fixed transfer `window` and a `broken` flag. Timeouts, partial failures after some bytes, and varying per-call sizes are not modelled.
- Net.Connection.SendData and Net.Connection.RecvDataAlloc: the `sendRequests`/`recvRequests` traces are ghost, so the 2048-byte chunk bound is stated on ghost state.
- Block predecessors are object references (`prevBlock`), as in the source, not indices. `Chains.Chain.Valid` ties each block's reference to the element before it.
