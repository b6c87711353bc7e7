# Wormhole core, modelled in Dafny

Wormhole (the `teleport-*` crates) is a peer-to-peer filesystem. A host shares one or more folders. A client mounts them through FUSE or WinFSP and reads and writes them chunk by chunk over QUIC. A signal server introduces the two peers by a short join code. This project models the sequential bookkeeping beneath that plumbing and proves what its code promises.

One Dafny module per source file, each in the source's own form:

- **Core values and codecs** (`teleport-core`):
  - `Types`: chunk arithmetic, packed 16/48-bit global inodes and share ids in hex;
  - `Crypto`: join-code normalisation, validation and generation;
  - `Paths`: lexical path and filename checks;
  - `Protocol`: the 4-byte little-endian length frame;
  - `Compression`: the compress-or-skip decision and its statistics;
  - `BufferPool`: allocation accounting;
  - `Errors`: the wire error codes and their errno mapping.
- **Client state** (`teleport-daemon`):
  - `SyncEngine`: dirty chunks, dirty inodes and held locks;
  - `Governor`: sequential-access detection and prefetch planning;
  - `Cache` over `Lru`: the RAM chunk cache with byte accounting and the TTL caches;
  - `DiskCache` and `Gc`: the disk-cache index and its eviction loop;
  - `Mount`: the chunk-stitched reads and chunk-split writes shared by `Fuse`, `MultiFuse` and `Winfsp`;
  - `ConnectionManager`: the share registry and reconnect backoff.
- **Host tables**:
  - `LockManager`: shared and exclusive holds with a TTL;
  - `Host`: the inode-to-path table and directory pagination;
  - `MultiHost`: the same for several shares;
  - `RateLimiter`: per-IP failure counting with backoff.
- **Bulk transfer**: `StreamPool`, `DedupIndex` (an index with an LRU queue) and `BulkTransfer` (manifest building and progress).
- **Signalling and the desktop app**:
  - `Rooms` and `Signal`: room membership and the signal server's message handling;
  - `Rendezvous`: choosing the address to reach a peer at;
  - `DeepLink`: `wormhole://` links;
  - `Updater`: GitHub release selection and asset classification;
  - `Icons`: the placeholder PNG encoder, following the PNG Specification (Second Edition, ISO/IEC 15948), sections 5.2, 5.3 and 11.2.2.

How the source's shape carries over:

- Objects whose methods update their fields are classes. Each method's `ensures` ties the new state to a step function on the old state; lemmas about the step functions carry the invariants, round trips and error cases.
- Loops of the source are `while` loops with their invariants.
- Pure code is functions and lemmas.
- Locks, atomics and concurrent maps are read as plain sequential state.
- Parameters stand for what the model cannot see:
  - every clock reading is a `now` (nanoseconds unless stated);
  - random bytes and network or disk outcomes are passed in;
  - BLAKE3, SHA-256, bincode, zstd, zlib and CRC-32 are functions passed in or uninterpreted.
- Helpers used by several modules live in `Wrappers` (Option and Result), `Ints` (fixed-width integers, byte orders, decimal strings), `Collections` (filter, stable sort, map sums) and `Strings`.

Where the specification and the code disagree, the model follows the code. `CreateRoom` carries an optional `peer_info` because `server.rs` reads one that the message enum in `messages.rs` does not declare. A `Host.Code` adds `LockRequired`, which `host.rs` sends but `error.rs` does not define.

## Model

| member | source | states |
|---|---|---|
| Types.FromOffset | crates/teleport-core/src/types.rs:36-41 | the chunk keeps the inode and its index brackets the offset: `index * CHUNK_SIZE <= offset < (index + 1) * CHUNK_SIZE` |
| Types.ByteOffset | crates/teleport-core/src/types.rs:44-46 | without overflow, the chunk starts at `index * CHUNK_SIZE` (the multiplication wraps at 2^64 as in release builds) |
| Types.OffsetInChunk | crates/teleport-core/src/types.rs:49-51 | the position in the chunk is below `CHUNK_SIZE` and the offset minus it is a chunk boundary |
| Types.OffsetDecomposes | crates/teleport-core/src/types.rs:36-51 | `from_offset(i, o).index == o / CHUNK_SIZE` and `byte_offset() + offset_in_chunk(o) == o` |
| Types.DirectoryAttr | crates/teleport-core/src/types.rs:88-109 | a directory record: the inode, type `Directory`, size 0, mode 0o755, two links |
| Types.FileAttrOf | crates/teleport-core/src/types.rs:113-134 | a file record: the inode, type `File`, the size, mode 0o644, one link |
| Types.ChunkCount | crates/teleport-core/src/types.rs:138-145 | zero exactly for an empty file, otherwise `ceil(size / CHUNK_SIZE)`: `(r - 1) * CHUNK_SIZE < size <= r * CHUNK_SIZE` |
| Types.ToHex | crates/teleport-core/src/types.rs:225-227 | two characters per byte |
| Types.HexRoundTrip | crates/teleport-core/src/types.rs:225-227 | decoding the hex text gives back the bytes, so the rendering is injective |
| Types.ShareIdToHex | crates/teleport-core/src/types.rs:225-227 | 16 lowercase hex digits that decode to the share id |
| Types.FromPacked | crates/teleport-core/src/types.rs:345-350 | the local inode is below 2^48 and `share_index * 2^48 + local_inode` is the packed value |
| Types.ToPacked | crates/teleport-core/src/types.rs:353-355 | the share index is the top 16 bits and the local inode masked to 48 bits is the rest |
| Types.PackRoundTrip | crates/teleport-core/src/types.rs:345-355 | `from_packed(to_packed(g)) == g` whenever the local inode is below 2^48 |
| Types.UnpackRoundTrip | crates/teleport-core/src/types.rs:345-355 | `to_packed(from_packed(p)) == p` for every 64-bit value |
| Types.PackMasksLocal | crates/teleport-core/src/types.rs:353-355 | packing drops the local inode's bits above 48 and nothing else |
| Types.VirtualRootPacking | crates/teleport-core/src/types.rs:331-334 | `VIRTUAL_ROOT` packs to 0, only 0 unpacks to the virtual root, and it is not a share root |
| Types.ShareRootPacking | crates/teleport-core/src/types.rs:358-365 | a share root is not the virtual root and packs to `share_index * 2^48 + ROOT_INODE` |
| Crypto.CodeIndex | crates/teleport-core/src/crypto.rs:14 | every alphabet character sits at some index of the 32-character table |
| Crypto.CodeCharsExactly | crates/teleport-core/src/crypto.rs:14 | a character is in the table exactly when it is `2`-`9` or an uppercase letter other than `I` and `O` |
| Crypto.ToAsciiUpper | crates/teleport-core/src/crypto.rs:35 | the result is never a lowercase ASCII letter, and a character that is not one passes through |
| Crypto.NormalizeConcat | crates/teleport-core/src/crypto.rs:31-36 | normalisation works character by character: it distributes over concatenation |
| Crypto.NormalizeContents | crates/teleport-core/src/crypto.rs:31-36 | the result is no longer than the input, holds no whitespace, `-` or lowercase letter, and keeps the uppercased form of every other input character |
| Crypto.NormalizeFixed | crates/teleport-core/src/crypto.rs:31-36 | a code of uppercase, non-blank, dash-free characters is left as it is |
| Crypto.NormalizeIdempotent | crates/teleport-core/src/crypto.rs:31-36 | normalising twice is normalising once |
| Crypto.ValidateCountsBytes | crates/teleport-core/src/crypto.rs:39-45 | the code check gives the same verdict whether the normalised length is counted in UTF-8 bytes, as `str::len` does, or in characters, because every alphabet character is ASCII |
| Crypto.AmbiguousNeverValidates | crates/teleport-core/src/crypto.rs:14-45 | a code containing `0`, `1`, `O` or `I` (either case) never validates |
| Crypto.AlphabetIsNormal | crates/teleport-core/src/crypto.rs:14 | alphabet characters are digits or uppercase letters, untouched by normalisation |
| Crypto.PickChars | crates/teleport-core/src/crypto.rs:20-25 | one alphabet character per random byte |
| Crypto.GenerateJoinCode | crates/teleport-core/src/crypto.rs:17-28 | for six random bytes the code is `XXX-XXX`: length 7 with `-` at index 3 |
| Crypto.NormalizeAroundDash | crates/teleport-core/src/crypto.rs:31-36 | normalising `left-right` of two normal halves drops just the dash |
| Crypto.GeneratedCodeNormalizes | crates/teleport-core/src/crypto.rs:17-36 | a generated code normalises to the six chosen alphabet characters |
| Crypto.GeneratedCodeValidates | crates/teleport-core/src/crypto.rs:17-45 | every generated code validates |
| Crypto.ChecksumVerifies | crates/teleport-core/src/crypto.rs:48-55 | `verify_checksum(d, checksum(d))` holds for every hash function and data |
| Errors.CodeRoundTrip | crates/teleport-core/src/error.rs:44-79 | the wire discriminants are distinct 16-bit values: decoding a code's number gives the code back |
| Errors.CodeFamilies | crates/teleport-core/src/error.rs:44-79 | the hundreds digit of a discriminant is its family: general below 100, files 100-199, I/O 200-299, locks 300-399, sessions and connections from 400 |
| Errors.ToErrorCode | crates/teleport-core/src/error.rs:81-95 | path traversal, checksum mismatch, invalid chunk id and timeout map to their own codes, and exactly the other errors map to `ProtocolError` |
| Errors.ToErrno | crates/teleport-core/src/error.rs:99-120 | 0 exactly for `Ok`; EACCES exactly for the two permission codes; EAGAIN exactly for lock conflict and rate limiting; ENOLCK exactly for the two lock-state codes; EIO for the unlisted codes |
| Errors.ProtocolErrorsAreErrors | crates/teleport-core/src/error.rs:81-120 | no protocol error reaches errno 0, and a path traversal reaches EACCES |
| Protocol.SerializeMessage | crates/teleport-core/src/protocol.rs:431-440 | a codec failure passes through; otherwise the frame is the 4-byte little-endian payload length followed by the payload, `4 + len` bytes long |
| Protocol.RecvFrame | crates/teleport-daemon/src/net.rs:91-120 | a short read below 4 bytes or below the announced length is an error, an announced length above `MAX_MESSAGE_SIZE` is a protocol error, and otherwise the payload is the announced bytes after the prefix |
| Protocol.FrameRoundTrip | crates/teleport-core/src/protocol.rs:431-440 | the prefix decodes to the payload length, the frame is longer than 4 bytes exactly for a non-empty payload, and the reader gets the payload back when it is within the size limit |
| Protocol.RecvOfFrame | crates/teleport-daemon/src/net.rs:91-120 | a prefix announcing the payload's length reads back that payload, or a protocol error above the limit |
| Protocol.MessageRoundTrip | crates/teleport-core/src/protocol.rs:431-445 | deserialising `frame[4..]` gives the message back when the codec decodes its own encoding |
| Paths.Split | crates/teleport-core/src/path.rs:58 | splitting on `/` yields at least one piece and no piece contains `/` |
| Paths.PiecesComponents | crates/teleport-core/src/path.rs:58 | after the first piece, `Path::components` yields only `Normal` and `..` components (empty and `.` pieces vanish) |
| Paths.RelativeComponents | crates/teleport-core/src/path.rs:49-58 | a path that is not absolute has no root and no prefix component |
| Paths.Utf8Width | crates/teleport-core/src/path.rs:38 | a character takes one to four bytes in UTF-8, and one exactly when it is ASCII |
| Paths.Utf8LenBounds | crates/teleport-core/src/path.rs:38 | the byte length `str::len` compares lies between the character count and four times it, and equals the character count exactly for ASCII text |
| Paths.Utf8Concat | crates/teleport-core/src/path.rs:38 | byte lengths add up over concatenation |
| Paths.TwoByteRun | crates/teleport-core/src/path.rs:116 | `n` copies of a two-byte character are `2n` bytes |
| Paths.WideNameRefused | crates/teleport-core/src/path.rs:116-122 | a name of 200 copies of U+00E9 (200 characters, 400 bytes) is refused as "filename too long" |
| Paths.WalkAt | crates/teleport-core/src/path.rs:58-91 | one step of the component loop: a `Normal` name is pushed, a name over `MAX_FILENAME_LEN` UTF-8 bytes stops with "filename too long", a short name or `.` continues |
| Paths.SafePath | crates/teleport-core/src/path.rs:29-102 | succeeds exactly when no guard refuses (NUL byte, over `MAX_PATH_LEN` UTF-8 bytes, absolute, then `..`, root, prefix or a name over `MAX_FILENAME_LEN` bytes, in that order), always with a `PathTraversal` error; on success the result is `base` followed by the `Normal` names in order with `.` dropped, so it starts with `base` |
| Paths.IsSafePath | crates/teleport-core/src/path.rs:178-204 | true exactly when `safe_path` would succeed on the same text |
| Paths.ValidateFilename | crates/teleport-core/src/path.rs:105-137 | accepts exactly the non-empty names without NUL, at most `MAX_FILENAME_LEN` bytes, other than `.` and `..`, without `/` or `\`; every refusal is `PathTraversal` |
| Paths.ParentAlwaysRefused | crates/teleport-core/src/path.rs:72-76 | any `..` component anywhere in the sequence makes the walk refuse |
| Paths.WalkedNamesAreFilenames | crates/teleport-core/src/path.rs:105-137 | every name an accepted walk pushes is a non-empty, slash-free name of at most `MAX_FILENAME_LEN` bytes, not `.` or `..` |
| Paths.DotDotRefused | crates/teleport-core/src/path.rs:72-76 | a relative path with a `..` piece anywhere is refused |
| Paths.LeadingDotDot | crates/teleport-core/src/path.rs:72-76 | a relative path starting with `..` is refused by the walk |
| Paths.LaterDotDot | crates/teleport-core/src/path.rs:72-76 | a `..` after the first piece is refused by the walk |
| Paths.ParentInTail | crates/teleport-core/src/path.rs:58-91 | a `..` after any prefix of components is refused |
| Paths.DotSkipped | crates/teleport-core/src/path.rs:77-79 | `a/./b` has the components `a`, `b` and pushes exactly those names |
| Paths.DotPathSafe | crates/teleport-core/src/path.rs:29-102 | `a/./b` of two plain names within `MAX_FILENAME_LEN` bytes each, and within `MAX_PATH_LEN` bytes together, is accepted |
| Paths.LeadingDotSkipped | crates/teleport-core/src/path.rs:77-79 | `./b` has the components `.`, `b` and pushes only `b` |
| Paths.LeadingParentRefused | crates/teleport-core/src/path.rs:72-76 | every path starting `../` is refused |
| Compression.New | crates/teleport-core/src/compression.rs:47-53 | level 3 and a 1024-byte minimum size |
| Compression.WithLevel | crates/teleport-core/src/compression.rs:56-62 | the level is `level.clamp(1, 22)`: kept inside the range, 1 below it, 22 above it |
| Compression.Fast | crates/teleport-core/src/compression.rs:65-67 | level 1 |
| Compression.MaxCompression | crates/teleport-core/src/compression.rs:70-72 | level 19 |
| Compression.Extension | crates/teleport-core/src/compression.rs:97-100 | `rsplit('.').next()`: the dot-free suffix after the last `.`, or the whole path when there is none |
| Compression.Lowercase | crates/teleport-core/src/compression.rs:100 | same length, character by character lowercased |
| Compression.ListedFromIff | crates/teleport-core/src/compression.rs:102-117 | the scan over the extension list finds exactly the listed entries |
| Compression.DottedEntriesNeverMatch | crates/teleport-core/src/compression.rs:97-113 | the extension never contains `.`, so the `tar.gz`, `tar.xz` and `tar.bz2` entries can never match |
| Compression.GzListed | crates/teleport-core/src/compression.rs:111 | `gz` is in the compressed list |
| Compression.Mp4Listed | crates/teleport-core/src/compression.rs:105 | `mp4` is in the compressed list |
| Compression.RsNotListed | crates/teleport-core/src/compression.rs:102-117 | `rs` is not in the list |
| Compression.ExtensionExampleArchive | crates/teleport-core/src/compression.rs:96-119 | `archive.tar.gz` counts as compressed, decided by `gz` |
| Compression.ExtensionExampleUppercase | crates/teleport-core/src/compression.rs:96-119 | `video.MP4` counts as compressed: the extension is lowercased |
| Compression.ExtensionExampleSource | crates/teleport-core/src/compression.rs:96-119 | `code.rs` does not count as compressed |
| Compression.ShouldCompressGuards | crates/teleport-core/src/compression.rs:77-93 | data shorter than the minimum or with a compressed extension is never compressed; past the guards the entropy test on the first 4096 bytes decides |
| Compression.CompressSmart | crates/teleport-core/src/compression.rs:166-192 | the original size is the input length; the result is `Compressed` exactly when `should_compress` holds, zstd succeeds and its output is strictly shorter, and it then carries that output and its length; otherwise `Skipped` |
| Compression.BytesSaved | crates/teleport-core/src/compression.rs:239-248 | 0 for `Skipped`, `original - compressed` saturating at 0 for `Compressed` |
| Compression.SmartResultSaves | crates/teleport-core/src/compression.rs:239-248 | a smart result saves bytes exactly when it is `Compressed` |
| Compression.CompressionStats.Record | crates/teleport-core/src/compression.rs:286-304 | input grows by the original size; a compressed result adds its compressed size to the output, the saving to `bytes_saved` and one to `compress_count`; a skipped one adds the original size to the output and one to `skip_count`; output plus saved stays equal to input |
| Compression.StatsExample | crates/teleport-core/src/compression.rs:397-419 | one 1000→500 result and one skipped 1000-byte result give input 2000, output 1500, saved 500, one of each count |
| BufferPool.BufferPool.constructor | crates/teleport-core/src/buffer_pool.rs:57-66 | an empty pool with nothing allocated and zero counters |
| BufferPool.BufferPool.TryAcquire | crates/teleport-core/src/buffer_pool.rs:93-133 | every call counts; a pooled buffer is popped first as a cache hit; otherwise a new zero buffer is made only while `allocated < max_buffers`; otherwise `None` with nothing changed; `available <= allocated <= max_buffers` is kept |
| BufferPool.BufferPool.Release | crates/teleport-core/src/buffer_pool.rs:147-156 | the buffer is zero-filled and pushed back, `allocated` unchanged, one fewer in use |
| BufferPool.BufferPool.Available | crates/teleport-core/src/buffer_pool.rs:174-176 | the pool's length |
| BufferPool.BufferPool.InUse | crates/teleport-core/src/buffer_pool.rs:179-181 | `allocated - available`, which is the number of handed-out buffers |
| BufferPool.BufferPool.Stats | crates/teleport-core/src/buffer_pool.rs:184-200 | `cache_hits <= total_acquisitions`, `in_use + available == allocated <= max_buffers` |
| BufferPool.ExhaustionExample | crates/teleport-core/src/buffer_pool.rs:320-347 | a pool of two refuses a third buffer, reuses a dropped one as a cache hit, and has two in use again |
| Compression.CompressionStats.constructor | crates/teleport-core/src/compression.rs:252-264 | the derived default: every counter is zero, which satisfies the statistics invariant |
| LockManager.TimeRemaining | crates/teleport-daemon/src/lock_manager.rs:35-43 | zero exactly when the hold has expired (`now >= expires_at`), otherwise the time left until `expires_at` |
| LockManager.LiveHolds | crates/teleport-daemon/src/lock_manager.rs:279 | `retain(!is_expired)`: exactly the unexpired holds survive |
| LockManager.CleanupStatus | crates/teleport-daemon/src/lock_manager.rs:266-296 | never leaves `SharedLock` with no holders, keeps the table well formed, and keeps only unexpired holds of the entry |
| LockManager.CleanupKeepsLiveHolds | crates/teleport-daemon/src/lock_manager.rs:266-296 | the holds after cleanup are the live ones, in their order |
| LockManager.CleanupAll | crates/teleport-daemon/src/lock_manager.rs:256-263 | cleaning every entry keeps the set of inodes |
| LockManager.MinRemaining | crates/teleport-daemon/src/lock_manager.rs:107 | `iter().map(time_remaining).min()`: `None` for no holds, otherwise the least remaining time of some hold |
| LockManager.AcquireTouchesOnlyInode | crates/teleport-daemon/src/lock_manager.rs:76-172 | `acquire` adds only its own inode to the table and leaves every other entry as it was |
| LockManager.LiveExclusiveConflicts | crates/teleport-daemon/src/lock_manager.rs:92-100 | an unexpired exclusive hold refuses every request with `Conflict` naming its holder, `Exclusive` and its remaining time, and changes nothing |
| LockManager.SharedHoldsStack | crates/teleport-daemon/src/lock_manager.rs:102-153 | against live shared holds an exclusive request conflicts naming the first live holder and the least remaining time; a shared request is granted by appending one hold after the live ones |
| LockManager.UnlockedGrants | crates/teleport-daemon/src/lock_manager.rs:124-145 | with no live hold the request is granted with `expires_at = now + ttl`, as a one-holder shared lock or an exclusive lock |
| LockManager.ExpiredExclusiveYields | crates/teleport-daemon/src/lock_manager.rs:266-296 | an expired exclusive hold is purged first and no longer blocks |
| LockManager.AcquireKeepsWellFormed | crates/teleport-daemon/src/lock_manager.rs:76-172 | `acquire` never leaves an empty `SharedLock` behind |
| LockManager.Position | crates/teleport-daemon/src/lock_manager.rs:181 | `position`: the first index holding the token, or `None` when no hold has it |
| LockManager.ReleaseRemovesHold | crates/teleport-daemon/src/lock_manager.rs:178-199 | releasing removes exactly the hold with that token (the first one) and turns an emptied entry into `Unlocked` |
| LockManager.RenewToken | crates/teleport-daemon/src/lock_manager.rs:211-226 | renewing keeps the number of holds |
| LockManager.RenewSetsExpiry | crates/teleport-daemon/src/lock_manager.rs:211-226 | renewing changes only the `expires_at` of the first hold with the token |
| LockManager.ValidateMeaning | crates/teleport-daemon/src/lock_manager.rs:235-247 | `validate` holds exactly when an unexpired hold with the token is exclusive, or is shared and `Shared` is required |
| LockManager.ReleaseHolder | crates/teleport-daemon/src/lock_manager.rs:303-326 | never leaves an empty `SharedLock` |
| LockManager.ReleaseHolderKeepsOthers | crates/teleport-daemon/src/lock_manager.rs:303-326 | the holds left are exactly those of other holders, in order |
| LockManager.LockManager.constructor | crates/teleport-daemon/src/lock_manager.rs:66-71 | an empty table with the default TTL |
| LockManager.LockManager.CleanupInode | crates/teleport-daemon/src/lock_manager.rs:266-296 | the table becomes the one with that inode's entry cleaned |
| LockManager.LockManager.Acquire | crates/teleport-daemon/src/lock_manager.rs:76-172 | the table and the answer are those of `AcquireStep` with the TTL `timeout.unwrap_or(default_ttl)`; the table stays well formed |
| LockManager.LockManager.Release | crates/teleport-daemon/src/lock_manager.rs:175-203 | succeeds exactly when some entry holds the token, and then releases it in one such entry; otherwise `TokenNotFound` and the table unchanged |
| LockManager.LockManager.Renew | crates/teleport-daemon/src/lock_manager.rs:206-232 | succeeds exactly when some entry holds the token, and then sets that hold's expiry to `now + ttl`; otherwise `TokenNotFound` and the table unchanged |
| LockManager.LockManager.Validate | crates/teleport-daemon/src/lock_manager.rs:235-247 | true only for an inode whose entry holds the token |
| LockManager.LockManager.CleanupExpired | crates/teleport-daemon/src/lock_manager.rs:256-263 | every entry is cleaned and the table stays well formed |
| LockManager.LockManager.ReleaseAllByHolder | crates/teleport-daemon/src/lock_manager.rs:299-329 | every entry drops the holder's holds and nothing else |
| LockManager.ReleaseAll | crates/teleport-daemon/src/lock_manager.rs:302-328 | the loop over the entries yields the map with every entry's holder holds released, well formed |
| LockManager.CleanupEach | crates/teleport-daemon/src/lock_manager.rs:258-262 | the loop over the collected keys yields the cleaned map, well formed |
| SyncEngine.SyncEngine.constructor | crates/teleport-daemon/src/sync_engine.rs:89-96 | no dirty chunk, no dirty inode, no lock; `dirty_inodes` is the set of inodes of `dirty_chunks` |
| SyncEngine.SyncEngine.MarkDirty | crates/teleport-daemon/src/sync_engine.rs:99-115 | the chunk is stored with the data, `modified_at = now`, zero attempts and no error, replacing any earlier entry; its inode is dirty; the invariant holds |
| SyncEngine.SyncEngine.IsDirty | crates/teleport-daemon/src/sync_engine.rs:118-120 | true exactly for a stored chunk |
| SyncEngine.SyncEngine.HasDirtyChunks | crates/teleport-daemon/src/sync_engine.rs:123-125 | true exactly when some stored chunk belongs to the inode |
| SyncEngine.SyncEngine.GetDirtyChunk | crates/teleport-daemon/src/sync_engine.rs:128-133 | the stored data, `None` for a chunk that is not dirty |
| SyncEngine.SyncEngine.GetDirtyChunksForInode | crates/teleport-daemon/src/sync_engine.rs:136-143 | exactly the stored entries of that inode |
| SyncEngine.SyncEngine.MarkSynced | crates/teleport-daemon/src/sync_engine.rs:146-160 | only that chunk is removed; the inode stays dirty while another of its chunks remains and leaves the set otherwise |
| SyncEngine.SyncEngine.MarkSyncFailed | crates/teleport-daemon/src/sync_engine.rs:163-172 | a dirty chunk gets one more attempt and the error; a chunk that is not dirty changes nothing |
| SyncEngine.SyncEngine.StoreLock | crates/teleport-daemon/src/sync_engine.rs:175-187 | the inode's lock becomes the token and type, acquired now and expiring at `now + ttl`; dirty state untouched |
| SyncEngine.SyncEngine.GetLock | crates/teleport-daemon/src/sync_engine.rs:190-199 | the stored lock while `now < expires_at`, else `None` |
| SyncEngine.SyncEngine.HasLockMeaning | crates/teleport-daemon/src/sync_engine.rs:202-214 | `has_lock` holds exactly for an unexpired lock that is exclusive or meets a shared requirement, so an exclusive lock satisfies both types |
| SyncEngine.SyncEngine.GetLockToken | crates/teleport-daemon/src/sync_engine.rs:217-219 | the token of the unexpired lock, else `None` |
| SyncEngine.SyncEngine.RemoveLock | crates/teleport-daemon/src/sync_engine.rs:222-225 | only that inode's lock goes |
| SyncEngine.SyncEngine.ClearInode | crates/teleport-daemon/src/sync_engine.rs:228-239 | every dirty chunk of that inode, the inode's dirty mark and its lock go, and nothing else |
| SyncEngine.SyncEngine.Status | crates/teleport-daemon/src/sync_engine.rs:242-255 | chunk count, dirty-file count, the sum of data lengths and the sum of attempts |
| SyncEngine.SyncEngine.ShouldForceSync | crates/teleport-daemon/src/sync_engine.rs:258-260 | true exactly from 1000 dirty chunks on |
| SyncEngine.SyncEngine.Entries | crates/teleport-daemon/src/sync_engine.rs:266-269 | every stored entry, as stored, with no chunk id twice |
| SyncEngine.SyncEngine.GetChunksToSync | crates/teleport-daemon/src/sync_engine.rs:263-276 | `min(max_count, len)` distinct stored entries (no chunk id twice) in ascending `modified_at`, and no entry left out is older than one returned |
| SyncEngine.SyncEngine.TakeOldest | crates/teleport-daemon/src/sync_engine.rs:266-274 | the first `max_count` entries of the sorted list stay sorted, stored and repeat-free, and no entry left out is older |
| SyncEngine.SyncEngine.OldestFirst | crates/teleport-daemon/src/sync_engine.rs:272-274 | cutting a sorted list keeps the oldest entries |
| SyncEngine.SyncEngine.GetExpiringLocks | crates/teleport-daemon/src/sync_engine.rs:279-287 | exactly the inodes whose lock expires before `now + within` |
| SyncEngine.SyncEngine.CleanupExpiredLocks | crates/teleport-daemon/src/sync_engine.rs:290-304 | exactly the locks with `expires_at < now` go |
| SyncEngine.SyncEngine.SortedEntries | crates/teleport-daemon/src/sync_engine.rs:266-272 | a permutation of the collected entries still holds every dirty chunk exactly as stored, only those, and each chunk id once |
| Lru.IndexOf | crates/teleport-daemon/src/cache.rs:195-207 | the position of the key, or `None` exactly when no entry has it |
| Lru.Peek | crates/teleport-daemon/src/cache.rs:200-202 | `peek` finds a value exactly for a present key and leaves the order alone |
| Lru.Remove | crates/teleport-daemon/src/cache.rs:243-251 | `pop(k)`: the key is gone, one entry fewer when it was present and nothing changed otherwise; every other entry is kept and no entry is invented |
| Lru.Promote | crates/teleport-daemon/src/cache.rs:195-197 | `get` moves the key to the most recently used end with its value, same size |
| Lru.Put | crates/teleport-daemon/src/cache.rs:215-240 | `put`: the key becomes most recently used with the new value; a present key is replaced in place of its old entry; a new key is appended, dropping the least recently used entry when the cache is at capacity; the size stays within capacity |
| Lru.PutThenPeek | crates/teleport-daemon/src/cache.rs:215-240 | after `put` the key reads the new value, and another present key keeps its value unless it was the one dropped at capacity |
| Lru.PutKeepsOther | crates/teleport-daemon/src/cache.rs:215-240 | `put` does not change another key's value unless that key was dropped |
| Lru.PopLru | crates/teleport-daemon/src/cache.rs:223 | `pop_lru` removes and returns the least recently used entry, `None` when empty |
| Lru.DropKeys | crates/teleport-daemon/src/cache.rs:254-270 | keeps exactly the entries whose key is not in the set, in order |
| Lru.RemoveDropKeys | crates/teleport-daemon/src/cache.rs:263-269 | popping one more key is dropping a set that includes it |
| Governor.Diff | crates/teleport-daemon/src/governor.rs:98 | `index as i64 - last as i64`: a signed 64-bit difference congruent to the true one modulo 2^64 |
| Governor.DiffPlain | crates/teleport-daemon/src/governor.rs:98 | for indices below 2^63 it is the plain difference |
| Governor.Observe | crates/teleport-daemon/src/governor.rs:98-130 | `last_chunk` always becomes the accessed index |
| Governor.FirstAccess | crates/teleport-daemon/src/governor.rs:90-96 | a first access records `last_chunk = index`, streak 0, direction `Random` and leaves it so |
| Governor.AdjacentStep | crates/teleport-daemon/src/governor.rs:101-119 | a step of +1 (or -1) extends a streak in that direction, and restarts it at 1 when the direction was different |
| Governor.RepeatAndJump | crates/teleport-daemon/src/governor.rs:120-128 | a repeat of the same chunk changes nothing; any step other than -1, 0 or +1 resets to streak 0 and `Random` |
| Governor.ForwardRun | crates/teleport-daemon/src/governor.rs:101-109 | `k` ascending steps from a first access give streak `k` in direction `Forward` |
| Governor.PlanBounds | crates/teleport-daemon/src/governor.rs:144-175 | any plan has at most `window` targets, all in the current inode; backward targets lie strictly below the current chunk; forward targets lie in `index+1 ..= index+window` when that does not wrap |
| Governor.PrefetchTargets | crates/teleport-daemon/src/governor.rs:144-175 | forward: exactly the next `window` chunks in order (indices wrap at 2^64); backward: `index-1, index-2, ...`, `min(window, index)` of them; random access: nothing |
| Governor.Governor.WithCapacity | crates/teleport-daemon/src/governor.rs:64-72 | an empty LRU of the given capacity, 10 000 when it is 0, with the default window 5 and threshold 3 |
| Governor.Governor.WithConfig | crates/teleport-daemon/src/governor.rs:75-82 | an empty LRU of 10 000 states with the given window and threshold |
| Governor.Governor.RecordAccess | crates/teleport-daemon/src/governor.rs:88-141 | the inode's state, created for a first access, is updated by the pattern rule and put as most recently used, dropping the least recently used inode at capacity; a prefetch is planned exactly when the streak reaches the threshold |
| Governor.Governor.ClearInode | crates/teleport-daemon/src/governor.rs:196-198 | the inode's state is popped, so it reads streak 0 and `Random` |
| Governor.Governor.Clear | crates/teleport-daemon/src/governor.rs:201-203 | no state is left |
| Cache.Unexpired | crates/teleport-daemon/src/cache.rs:83 | `retain(!is_expired)`: keeps exactly the unexpired entries, unchanged |
| Cache.AdmitMeaning | crates/teleport-daemon/src/cache.rs:78-94 | `insert` keeps at most `max(max_entries, 1)` entries; the new value reads back exactly until its expiry; every other surviving entry is an unchanged old one, and unexpired when eviction ran; below capacity nothing else is touched |
| Cache.TtlCache.constructor | crates/teleport-daemon/src/cache.rs:59-65 | an empty cache with the given time to live and entry budget |
| Cache.TtlCache.Insert | crates/teleport-daemon/src/cache.rs:78-94 | the new map is what `insert` leaves for some key the hash map could yield as the victim (the source takes the first key of its iteration order) |
| Cache.TtlCache.Invalidate | crates/teleport-daemon/src/cache.rs:96-98 | only the key is removed |
| Cache.TtlCache.InvalidateAll | crates/teleport-daemon/src/cache.rs:100-102 | the map is empty |
| Cache.Evict | crates/teleport-daemon/src/cache.rs:221-228 | the eviction loop drops a prefix of least recently used entries until the new chunk fits or nothing is left; the counter never grows |
| Cache.EvictAccounting | crates/teleport-daemon/src/cache.rs:221-228 | eviction keeps the counter an upper bound of the resident bytes, and exact when it was exact |
| Cache.Unlink | crates/teleport-daemon/src/cache.rs:243-251 | `invalidate` removes the chunk and never raises the counter |
| Cache.UnlinkAccounting | crates/teleport-daemon/src/cache.rs:243-251 | `invalidate` keeps the counter an upper bound of the resident bytes, and exact when it was exact |
| Cache.Prepare | crates/teleport-daemon/src/cache.rs:221-233 | after the eviction loop and the `pop` of an existing copy the chunk is absent and keys stay unique |
| Cache.PrepareMeaning | crates/teleport-daemon/src/cache.rs:221-233 | after that preparation the chunk fits or the cache is empty, the counter stays a (exact) bound of the resident bytes, and nothing is invented |
| Cache.PutResident | crates/teleport-daemon/src/cache.rs:236-238 | `put` of a new key adds its bytes and loses exactly the bytes of the entry it pushes out at entry capacity |
| Cache.InsertChunkAdmits | crates/teleport-daemon/src/cache.rs:235-239 | when the chunk fits it is `put`, and the counter loses what `put` pushed out and gains the chunk's length |
| Cache.InsertChunkRefuses | crates/teleport-daemon/src/cache.rs:235-239 | when the chunk does not fit, the state is the prepared one and the chunk is not added |
| Cache.AsWrittenBounds | crates/teleport-daemon/src/cache.rs:215-240 | as written, `insert_arc` keeps `current_bytes <= max_bytes` and never makes a chunk longer than `max_bytes` resident; the counter is only an upper bound of the resident bytes |
| Cache.AsWrittenDrift | crates/teleport-daemon/src/cache.rs:236-238 | with `max_bytes` 1024 (entry capacity `max(1024 / CHUNK_SIZE, 1)` = 1): two 512-byte chunks leave one chunk of 512 bytes while `current_bytes` is 1024, and a 1024-byte chunk is then refused and the cache emptied |
| Cache.CorrectedNoDrift | crates/teleport-daemon/src/cache.rs:236-238 | on the same inputs the corrected insertion keeps the counter at 512 and admits the 1024-byte chunk |
| Cache.InsertChunkExact | crates/teleport-daemon/src/cache.rs:215-240 | corrected insertion keeps the entry capacity, `current_bytes <= max_bytes` and the counter equal to the resident bytes |
| Cache.InsertChunkPlacement | crates/teleport-daemon/src/cache.rs:222-239 | a chunk no longer than `max_bytes` ends up most recently used with its data; a longer one is never resident |
| Cache.InsertChunkKeepsOthers | crates/teleport-daemon/src/cache.rs:215-240 | every other resident chunk was resident before with the same data |
| Cache.ReinsertSameSize | crates/teleport-daemon/src/cache.rs:230-239 | re-inserting a resident chunk with data of the same size leaves the counter unchanged and the new data readable: no double counting |
| Cache.ResidentPromote | crates/teleport-daemon/src/cache.rs:195-197 | promotion by `get` does not change the resident bytes |
| Cache.KeysOfInode | crates/teleport-daemon/src/cache.rs:258-263 | the collected keys are exactly resident keys of this inode, and every resident chunk of the inode is among them |
| Cache.DropInodeMeaning | crates/teleport-daemon/src/cache.rs:254-270 | dropping those keys removes every chunk of the inode and keeps every other chunk |
| Cache.EvictLoop | crates/teleport-daemon/src/cache.rs:221-228 | the `while` eviction loop computes `Evict` |
| Cache.PopAll | crates/teleport-daemon/src/cache.rs:265-269 | the `for` loop of `pop`s leaves exactly the entries whose keys were not listed, with the counter equal to their bytes |
| Cache.ChunkCache.constructor | crates/teleport-daemon/src/cache.rs:172-183 | `new(max_bytes)`: empty, entry capacity `max(max_bytes / CHUNK_SIZE, 1)` |
| Cache.ChunkCache.WithCapacity | crates/teleport-daemon/src/cache.rs:185-192 | empty, entry capacity `max(n, 1)`, byte budget `n * CHUNK_SIZE` |
| Cache.ChunkCache.Get | crates/teleport-daemon/src/cache.rs:195-197 | returns the resident data, promotes the chunk and leaves the counter alone |
| Cache.ChunkCache.Insert | crates/teleport-daemon/src/cache.rs:210-240 | the new state is the corrected insertion, so the counter stays exact and within budget |
| Cache.ChunkCache.Invalidate | crates/teleport-daemon/src/cache.rs:243-251 | the new state is `Unlink` of the old |
| Cache.ChunkCache.InvalidateInode | crates/teleport-daemon/src/cache.rs:254-270 | every chunk of the inode is dropped and the counter equals the remaining bytes |
| Cache.ChunkCache.Clear | crates/teleport-daemon/src/cache.rs:288-292 | empty cache, counter 0 |
| DiskCache.ChunkKeyBytes | crates/teleport-daemon/src/disk_cache.rs:150-151 | the hashed key is the 16 bytes `inode.to_le_bytes() ++ index.to_le_bytes()` |
| DiskCache.PathForHex | crates/teleport-daemon/src/disk_cache.rs:165-169 | the chunk path is the cache directory followed by three components |
| DiskCache.ChunkPathSplits | crates/teleport-daemon/src/disk_cache.rs:147-170 | for a 32-byte digest the components have 2, 2 and 60 characters and concatenate to the hex digest, which decodes back to the digest |
| DiskCache.ChunkPathInjective | crates/teleport-daemon/src/disk_cache.rs:147-170 | distinct digests get distinct paths, so the path is deterministic and collision-free up to SHA-256 |
| DiskCache.IndexedWithinTotal | crates/teleport-daemon/src/disk_cache.rs:270-272 | while the counter accounts for the index, no indexed size exceeds `total_bytes` |
| DiskCache.WriteStep | crates/teleport-daemon/src/disk_cache.rs:173-227 | a successful write indexes the chunk with its path, size and access time, stores the data, and changes no other index entry |
| DiskCache.WritePreserves | crates/teleport-daemon/src/disk_cache.rs:173-227 | a write keeps every index entry matching its file and the counter equal to indexed plus untracked bytes, so `total_bytes` moves by new size minus old size |
| DiskCache.WriteThenRead | crates/teleport-daemon/src/disk_cache.rs:230-262 | after a write, reading the chunk returns the data written, and another indexed chunk reads as before |
| DiskCache.ReadStep | crates/teleport-daemon/src/disk_cache.rs:230-262 | a chunk that is not indexed reads `None` and changes nothing |
| DiskCache.ReadPreserves | crates/teleport-daemon/src/disk_cache.rs:248-253 | a read changes only the chunk's access time: counter, files and index keys are unchanged |
| DiskCache.RemoveStep | crates/teleport-daemon/src/disk_cache.rs:280-296 | the chunk leaves the index whatever the file deletion does |
| DiskCache.RemoveOutcome | crates/teleport-daemon/src/disk_cache.rs:280-296 | `Ok(true)` exactly when the chunk was indexed and its file deleted, then the counter drops by its size; `Ok(false)` exactly when it was not indexed, then nothing changes; a failed deletion leaves the counter as it was |
| DiskCache.RemovePreserves | crates/teleport-daemon/src/disk_cache.rs:280-296 | after `remove` the invariants hold again, with the bytes of an undeletable file counted as untracked |
| DiskCache.DiskCache.WithDir | crates/teleport-daemon/src/disk_cache.rs:87-103 | an empty index whose counter starts at the bytes found by the directory scan, with the SHA-256 chunk paths |
| DiskCache.DiskCache.Write | crates/teleport-daemon/src/disk_cache.rs:173-227 | a failing I/O step returns an error and changes nothing; otherwise the new state is `WriteStep` |
| DiskCache.DiskCache.Read | crates/teleport-daemon/src/disk_cache.rs:230-262 | `Ok(None)` and no change for an unindexed chunk; an error and no change when the file cannot be read; otherwise the data and the refreshed access time |
| DiskCache.DiskCache.Remove | crates/teleport-daemon/src/disk_cache.rs:280-296 | the new state and result are `RemoveStep`'s |
| DiskCache.DiskCache.EntriesByAccessTime | crates/teleport-daemon/src/disk_cache.rs:299-306 | every index entry exactly once, sorted by last access time, oldest first |
| DiskCache.DiskCache.Clear | crates/teleport-daemon/src/disk_cache.rs:309-320 | the index is empty and the counter fell by the sizes of exactly the chunks whose files could be deleted |
| DiskCache.RemoveAll | crates/teleport-daemon/src/disk_cache.rs:315-317 | the `for` loop over the keys removes every entry, keeping the invariants |
| DiskCache.DiskCache.Entries | crates/teleport-daemon/src/disk_cache.rs:303 | the collected index holds each index entry exactly once, under its own key |
| Gc.ScanStops | crates/teleport-daemon/src/gc.rs:114-117 | the loop does nothing when the cache is already at or below the target, and when it stops before the end of the list its `current_size` is at or below the target |
| Gc.ScanRemovesPrefix | crates/teleport-daemon/src/gc.rs:114-133 | the loop takes out of the index exactly the entries it looked at, a prefix of the oldest-first list |
| Gc.ScanTally | crates/teleport-daemon/src/gc.rs:118-123 | `current_size` is the start size minus the evicted bytes (saturating), and evictions never outnumber the entries looked at |
| Gc.ScanTracksTotal | crates/teleport-daemon/src/gc.rs:104-133 | starting from `total_size()`, the loop's `current_size` is the disk cache's counter at the end |
| Gc.ScanShrinks | crates/teleport-daemon/src/gc.rs:104-133 | a collection never increases the cache's byte counter |
| Gc.ScanOldestFirst | crates/teleport-daemon/src/gc.rs:108-116 | every evicted entry was accessed no later than any entry left in the cache: least recently used first |
| Gc.GarbageCollector.constructor | crates/teleport-daemon/src/gc.rs:43-50 | the default 10 GiB budget with the given watermark sizes |
| Gc.GarbageCollector.WithConfig | crates/teleport-daemon/src/gc.rs:53-65 | the given budget and watermark sizes |
| Gc.GarbageCollector.GcToTarget | crates/teleport-daemon/src/gc.rs:104-140 | removes entries, in an oldest-first order of the index, by the loop `GcScan` describes, through the disk cache's own `remove` |
| Gc.GarbageCollector.MaybeGc | crates/teleport-daemon/src/gc.rs:81-101 | at or below the high watermark nothing changes; above it the state is that of a collection to the low watermark |
| Gc.GarbageCollector.ForceGc | crates/teleport-daemon/src/gc.rs:143-152 | freed plus remaining bytes equal the size before the collection |
| Gc.GarbageCollector.Stats | crates/teleport-daemon/src/gc.rs:155-164 | the current byte counter, the budget and the number of indexed entries |
| Gc.GcScan | crates/teleport-daemon/src/gc.rs:114-136 | the reference run of the eviction loop over an ordered entry list never processes more entries than the list holds |
| RateLimiter.Cleanup | crates/teleport-daemon/src/rate_limiter.rs:76-79 | keeps exactly the failures later than `now - window`, and leaves the block fields alone |
| RateLimiter.BlockRemaining | crates/teleport-daemon/src/rate_limiter.rs:91-101 | a remaining time exactly while the entry is blocked, and then `now + remaining` is the end of the block |
| RateLimiter.BlockLength | crates/teleport-daemon/src/rate_limiter.rs:163-166 | a block never exceeds one hour and is positive when the base duration is |
| RateLimiter.BlockLengthGrows | crates/teleport-daemon/src/rate_limiter.rs:163-166 | exponential backoff: a further block is never shorter, and below the cap of 2^6 and one hour it is twice as long |
| RateLimiter.SatAddU32 | crates/teleport-daemon/src/rate_limiter.rs:169 | `saturating_add` on u32: the sum, or `u32::MAX` when it would overflow |
| RateLimiter.FailureWhileBlocked | crates/teleport-daemon/src/rate_limiter.rs:153-159 | a failure while blocked only drops stale failures and answers blocked, without extending the block |
| RateLimiter.FailureBlocks | crates/teleport-daemon/src/rate_limiter.rs:161-178 | the failure that reaches `max_failures` blocks for the backoff length, counts the block and clears the failures |
| RateLimiter.FailureRecorded | crates/teleport-daemon/src/rate_limiter.rs:161-186 | a failure below the limit is appended to the window and leaves the IP unblocked |
| RateLimiter.FailureAnswersBlocked | crates/teleport-daemon/src/rate_limiter.rs:149-187 | `record_failure` answers `true` exactly when the IP is blocked afterwards (for a positive block duration) |
| RateLimiter.FailureKeepsFew | crates/teleport-daemon/src/rate_limiter.rs:161-178 | an entry never holds `max_failures` failures or more after a failure is recorded |
| RateLimiter.CleanupKeepsExactly | crates/teleport-daemon/src/rate_limiter.rs:202-233 | an IP survives `cleanup_expired` exactly when, after dropping its stale failures, it is blocked, has failures or has been blocked before; then its lapsed block is forgotten |
| RateLimiter.CleanupInventsNothing | crates/teleport-daemon/src/rate_limiter.rs:202-233 | cleanup never adds an IP |
| RateLimiter.RateLimiter.WithConfig | crates/teleport-daemon/src/rate_limiter.rs:117-122 | no IP tracked, the given configuration |
| RateLimiter.RateLimiter.constructor | crates/teleport-daemon/src/rate_limiter.rs:112-114 | no IP tracked, 5 failures per 60-second window, 60-second base block |
| RateLimiter.RateLimiter.Check | crates/teleport-daemon/src/rate_limiter.rs:127-134 | allowed exactly when the IP is unknown or not blocked |
| RateLimiter.RateLimiter.RecordSuccess | crates/teleport-daemon/src/rate_limiter.rs:137-145 | a known IP's failures are cleared and its block history kept; an unknown IP stays unknown |
| RateLimiter.RateLimiter.RecordFailure | crates/teleport-daemon/src/rate_limiter.rs:149-187 | the IP's entry, created when new, becomes the failure step's entry, and the answer is the step's |
| RateLimiter.RateLimiter.GetBlockRemaining | crates/teleport-daemon/src/rate_limiter.rs:196-199 | `None` for an unknown IP, else the entry's remaining block time |
| RateLimiter.RateLimiter.CleanupExpiredEntries | crates/teleport-daemon/src/rate_limiter.rs:202-233 | the entries become those of the two `retain` passes |
| RateLimiter.RateLimiter.Stats | crates/teleport-daemon/src/rate_limiter.rs:236-245 | the number of blocked IPs, never above the number tracked |
| RateLimiter.BlockedRefused | crates/teleport-daemon/src/rate_limiter.rs:127-187 | once `record_failure` says blocked, `check` refuses the IP at that instant |
| RateLimiter.SuccessRestartsCount | crates/teleport-daemon/src/rate_limiter.rs:137-186 | after a success, one failure does not block (when more than one failure is allowed) |
| DedupIndex.FirstIndex | crates/teleport-daemon/src/dedup_index.rs:184 | `position`: the first place the hash occurs |
| DedupIndex.TouchLru | crates/teleport-daemon/src/dedup_index.rs:180-190 | the hash ends up most recently used, the queue holds the same hashes plus it, and only grows when the hash was absent |
| DedupIndex.EvictStep | crates/teleport-daemon/src/dedup_index.rs:193-203 | the front of the queue is popped and its hash, if indexed, removed; nothing else in the index changes; an empty queue changes nothing |
| DedupIndex.InsertAsWritten | crates/teleport-daemon/src/dedup_index.rs:115-131 | as written, `insert` maps the hash to its location and queues it as most recently used |
| DedupIndex.AsWrittenOverflows | crates/teleport-daemon/src/dedup_index.rs:115-131 | as written, with `max_entries = 2` inserting `a, a, b, c, d` leaves three entries: the re-insert queues `a` twice and a later eviction pops the stale copy |
| DedupIndex.InsertStep | crates/teleport-daemon/src/dedup_index.rs:115-131 | corrected insert: the hash maps to the new location and is most recently used, and every other surviving entry is unchanged |
| DedupIndex.InsertKeepsExact | crates/teleport-daemon/src/dedup_index.rs:115-131 | the corrected insert keeps the queue listing each indexed hash exactly once |
| DedupIndex.InsertBounded | crates/teleport-daemon/src/dedup_index.rs:117-119 | the corrected insert never lets the index exceed `max(max_entries, 1)` |
| DedupIndex.InsertAtCapacity | crates/teleport-daemon/src/dedup_index.rs:117-129 | a new hash at capacity replaces the least recently used one |
| DedupIndex.InsertBelowCapacity | crates/teleport-daemon/src/dedup_index.rs:115-124 | below capacity the index only gains the new mapping |
| DedupIndex.TouchKeepsExact | crates/teleport-daemon/src/dedup_index.rs:180-190 | touching an indexed hash keeps the queue exact |
| DedupIndex.EvictKeepsExact | crates/teleport-daemon/src/dedup_index.rs:193-203 | eviction keeps the queue exact |
| DedupIndex.Missing | crates/teleport-daemon/src/dedup_index.rs:171-177 | the hashes not indexed, each taken from the input, every such one included |
| DedupIndex.MissingAppend | crates/teleport-daemon/src/dedup_index.rs:171-177 | `find_missing` of a concatenation is the concatenation of the answers, so batches can be split |
| DedupIndex.DedupIndex.constructor | crates/teleport-daemon/src/dedup_index.rs:79-86 | an empty index and queue, all counters zero |
| DedupIndex.DedupIndex.Lookup | crates/teleport-daemon/src/dedup_index.rs:91-103 | a hit returns the location, touches the hash and counts a hit; a miss returns `None` and counts a miss; the index is not changed |
| DedupIndex.DedupIndex.EvictLru | crates/teleport-daemon/src/dedup_index.rs:193-203 | the state is `EvictStep`'s, counting an eviction when the queue was not empty |
| DedupIndex.DedupIndex.Insert | crates/teleport-daemon/src/dedup_index.rs:115-131 | the state is the corrected `InsertStep`'s, the hash is then indexed at its location, and insertions and evictions are counted |
| DedupIndex.DedupIndex.RecordBytesSaved | crates/teleport-daemon/src/dedup_index.rs:134-136 | only the bytes-saved counter grows, by the amount |
| DedupIndex.DedupIndex.Clear | crates/teleport-daemon/src/dedup_index.rs:149-153 | index and queue empty, statistics kept |
| DedupIndex.DedupIndex.FindMissing | crates/teleport-daemon/src/dedup_index.rs:171-177 | a hash is reported exactly when it is in the batch and not indexed |
| DedupIndex.DedupIndex.Stats | crates/teleport-daemon/src/dedup_index.rs:156-166 | the counters and sizes, with the current size within `max(max_entries, 1)` |
| StreamPool.RecordBytes | crates/teleport-daemon/src/stream_pool.rs:55-59 | the stream's byte count grows by exactly the bytes recorded; id and timestamp unchanged |
| StreamPool.InitialStreams | crates/teleport-daemon/src/stream_pool.rs:167-174 | the pre-allocated streams are ids `0 .. n-1`, fresh, with no bytes |
| StreamPool.StreamPool.WithConfig | crates/teleport-daemon/src/stream_pool.rs:161-186 | `initial_streams` clamped to `[min, max]` idle streams, that many as target and as next id, nothing lent, counters zero |
| StreamPool.StreamPool.TryAcquire | crates/teleport-daemon/src/stream_pool.rs:190-207 | the front idle stream is lent out, counting an acquire and an active stream; an empty pool returns `None` and counts a backpressure event |
| StreamPool.StreamPool.AcquireOrCreate | crates/teleport-daemon/src/stream_pool.rs:210-242 | an idle stream if there is one; else a new stream with the next id when the count is below both the target and the maximum (after the inner backpressure count); else `None`, with two backpressure events counted |
| StreamPool.StreamPool.ReturnStream | crates/teleport-daemon/src/stream_pool.rs:245-257 | the lent stream rejoins the back of the idle queue with its bytes reset and added to the total; the stream count is unchanged |
| StreamPool.StreamPool.UpdateMeasurements | crates/teleport-daemon/src/stream_pool.rs:261-282 | with auto-tuning the target becomes the optimal count clamped to `[min, max]`; without it nothing changes |
| StreamPool.StreamPool.Stats | crates/teleport-daemon/src/stream_pool.rs:323-332 | the counters, with idle plus active streams within the maximum and the target within `[min, max]` |
| BulkTransfer.AsU32 | crates/teleport-daemon/src/bulk_transfer.rs:297 | `n as u32`: the value itself whenever it fits in 32 bits |
| BulkTransfer.ReadLen | crates/teleport-daemon/src/bulk_transfer.rs:290 | one `read` returns at most what was asked, never past the data, and 0 exactly when nothing was asked or the data is exhausted |
| BulkTransfer.ChunkLen | crates/teleport-daemon/src/bulk_transfer.rs:284-293 | a chunk is at most `chunk_size` bytes and never reaches past the metadata length or the data |
| BulkTransfer.ChunksWellFormed | crates/teleport-daemon/src/bulk_transfer.rs:283-303 | every recorded chunk has 1 ..= `chunk_size` bytes inside the file, and its hash is computed over exactly those bytes |
| BulkTransfer.ChunksContiguous | crates/teleport-daemon/src/bulk_transfer.rs:283-303 | the chunks start at the starting offset and each begins where the previous one ends |
| BulkTransfer.ChunksCover | crates/teleport-daemon/src/bulk_transfer.rs:283-303 | when the data is at least the metadata length, the chunk sizes sum to the rest of the file |
| BulkTransfer.ManifestCoversFile | crates/teleport-daemon/src/bulk_transfer.rs:269-311 | for a file read in full: contiguous from offset 0, well formed, sizes summing to `total_size` |
| BulkTransfer.ZeroChunkSizeEmpty | crates/teleport-daemon/src/bulk_transfer.rs:284-287 | a zero chunk size yields no chunks instead of looping |
| BulkTransfer.BuildManifest | crates/teleport-daemon/src/bulk_transfer.rs:269-311 | the `loop` builds the manifest of `ChunksFrom(.., 0)` with the inode, the metadata length and no file hash |
| BulkTransfer.Hashes | crates/teleport-daemon/src/bulk_transfer.rs:317 | the manifest's hashes, in manifest order |
| BulkTransfer.FindMissingChunks | crates/teleport-daemon/src/bulk_transfer.rs:316-319 | a hash is reported exactly when it is a manifest hash not in the dedup index; every such chunk's hash is reported |
| BulkTransfer.MissingBytes | crates/teleport-daemon/src/bulk_transfer.rs:345-352 | the bytes still to fetch never exceed the manifest's bytes and are 0 when nothing is missing |
| BulkTransfer.InsertAllKeepsExact | crates/teleport-daemon/src/bulk_transfer.rs:333-342 | registering keeps the dedup queue exact and the index within its bound |
| BulkTransfer.InsertAllWithRoom | crates/teleport-daemon/src/bulk_transfer.rs:333-342 | with room for all of them, every manifest chunk is indexed afterwards and no old entry is lost |
| BulkTransfer.InsertAllGrowth | crates/teleport-daemon/src/bulk_transfer.rs:333-342 | the index grows by at most the number of chunks |
| BulkTransfer.InsertAllOnlyChunks | crates/teleport-daemon/src/bulk_transfer.rs:333-342 | only old or manifest hashes are indexed, and the last chunk is located at the base path, its offset and size |
| BulkTransfer.TransferProgressTracker.constructor | crates/teleport-daemon/src/bulk_transfer.rs:410-421 | the totals given, every counter zero |
| BulkTransfer.TransferProgressTracker.AddBytes | crates/teleport-daemon/src/bulk_transfer.rs:424-426 | only `bytes_done` grows, by the amount |
| BulkTransfer.TransferProgressTracker.AddChunk | crates/teleport-daemon/src/bulk_transfer.rs:429-431 | only `chunks_done` changes, by one `add_chunk` step (one more chunk) |
| BulkTransfer.TransferProgressTracker.AddDedupSavings | crates/teleport-daemon/src/bulk_transfer.rs:434-436 | only the dedup savings grow, by the amount |
| BulkTransfer.TransferProgressTracker.AddCompressionSavings | crates/teleport-daemon/src/bulk_transfer.rs:439-441 | only the compression savings grow, by the amount |
| BulkTransfer.TransferProgressTracker.RemainingBytes | crates/teleport-daemon/src/bulk_transfer.rs:458 | `total - done`, or 0 once more than the total was counted |
| BulkTransfer.TransferProgressTracker.ReportedChunks | crates/teleport-daemon/src/bulk_transfer.rs:446 | `chunks_done as u32`: the count itself while it fits |
| BulkTransfer.ChunksAfterCount | crates/teleport-daemon/src/bulk_transfer.rs:429-431 | `k` calls of `add_chunk` raise the counter by exactly `k` |
| BulkTransfer.CompleteAfterAllChunks | crates/teleport-daemon/src/bulk_transfer.rs:410-478 | a fresh tracker after `k` calls of `add_chunk` reports complete exactly when `k >= total_chunks`, so not one chunk earlier |
| BulkTransfer.BulkTransferCoordinator.WithConfig | crates/teleport-daemon/src/bulk_transfer.rs:247-263 | the given index and configuration, a compressor at the configured level, first id 1 |
| BulkTransfer.BulkTransferCoordinator.NextTransferId | crates/teleport-daemon/src/bulk_transfer.rs:377-379 | ids start at 1 and each is larger than every one before |
| BulkTransfer.BulkTransferCoordinator.CompressChunk | crates/teleport-daemon/src/bulk_transfer.rs:322-330 | with compression off the chunk is skipped; a compressed result is the compressor's output and only arises with compression on |
| BulkTransfer.BulkTransferCoordinator.RegisterChunks | crates/teleport-daemon/src/bulk_transfer.rs:333-342 | the `for` loop leaves the dedup index as inserting every chunk in turn does, counting one insertion per chunk |
| BulkTransfer.BulkTransferCoordinator.CreateProgress | crates/teleport-daemon/src/bulk_transfer.rs:382-394 | a fresh tracker for the manifest's size and `chunks.len() as u32` chunks |
| Host.NewTable | crates/teleport-daemon/src/host.rs:75-88 | a new table maps `ROOT_INODE` to the root and back, and counts from `FIRST_USER_INODE` |
| Host.PathOf | crates/teleport-daemon/src/host.rs:90-92 | a path exactly for a known inode, the one recorded |
| Host.Alloc | crates/teleport-daemon/src/host.rs:99-144 | a known path gets its inode back with nothing changed; a new path gets the next counter value, recorded in both maps, unless the table holds `MAX_INODE_ENTRIES` entries or the counter would overflow, which yields `None` and no change |
| Host.Remove | crates/teleport-daemon/src/host.rs:147-152 | the inode and its path leave both maps; an unknown inode changes nothing |
| Host.Cleanup | crates/teleport-daemon/src/host.rs:155-192 | the surviving entries are the root and the inodes whose path still exists, unchanged; the count returned is the number removed; any removal resets the usage warning |
| Host.InverseDetermines | crates/teleport-daemon/src/host.rs:140-151 | the path-to-inode map is determined by the inode-to-path map, so the two are mutual inverses |
| Host.AllocKeepsValid | crates/teleport-daemon/src/host.rs:99-144 | allocation keeps the two maps mutual inverses, and the inode returned maps to the path |
| Host.AllocIdempotent | crates/teleport-daemon/src/host.rs:100-102 | asking again for the same path returns the same inode and changes nothing |
| Host.AllocFresh | crates/teleport-daemon/src/host.rs:128-143 | a new path's inode was not in use, and the table grows by one |
| Host.AllocExtends | crates/teleport-daemon/src/host.rs:99-144 | allocation keeps every existing mapping |
| Host.AllocDistinct | crates/teleport-daemon/src/host.rs:128-143 | two different paths get different inodes |
| Host.FirstAllocation | crates/teleport-daemon/src/host.rs:79 | the first path allocated in a new table gets `FIRST_USER_INODE` |
| Host.RemoveKeepsValid | crates/teleport-daemon/src/host.rs:147-152 | removal keeps the maps mutual inverses |
| Host.CleanupKeepsValid | crates/teleport-daemon/src/host.rs:155-192 | cleanup keeps the maps mutual inverses and returns how many entries it removed |
| Host.InodeTable.constructor | crates/teleport-daemon/src/host.rs:75-88 | the state is `NewTable(root)` |
| Host.InodeTable.GetPath | crates/teleport-daemon/src/host.rs:90-92 | the table's `PathOf` |
| Host.InodeTable.GetOrCreateInode | crates/teleport-daemon/src/host.rs:99-144 | the new state and the answer are `Alloc`'s |
| Host.InodeTable.RemoveInode | crates/teleport-daemon/src/host.rs:147-152 | the new state is `Remove`'s |
| Host.InodeTable.CleanupStaleEntries | crates/teleport-daemon/src/host.rs:155-192 | the loop over the stale inodes leaves `Cleanup`'s state and count |
| Host.ClampSecs | crates/teleport-daemon/src/host.rs:1452 | `max(0) as u64`: negative seconds become 0, others are kept |
| Host.ClampNsec | crates/teleport-daemon/src/host.rs:1453 | nanoseconds are clamped to `[0, 999_999_999]` |
| Host.FileTypeOf | crates/teleport-daemon/src/host.rs:1434-1440 | `Directory` exactly for a directory, `Symlink` exactly for a non-directory symlink |
| Host.MetadataToAttr | crates/teleport-daemon/src/host.rs:1431-1459 | the inode, type and size are copied, seconds clamped at 0 and nanoseconds into range |
| Host.InRangeAttrExact | crates/teleport-daemon/src/host.rs:1431-1459 | metadata already in range is copied unchanged |
| Host.IsFinal | crates/teleport-daemon/src/host.rs:703-705 | `is_final` holds exactly when `offset + bytes_read >= file_size`, the saturating sum compared the same way |
| Host.ServerTimestamp | crates/teleport-daemon/src/host.rs:474-479 | the milliseconds since the epoch, `u64::MAX` past that, 0 when the clock is before the epoch |
| Host.HandleGetAttr | crates/teleport-daemon/src/host.rs:552-574 | no attributes for an unknown inode or a missing file; an I/O error otherwise failing; else the attributes of the metadata |
| Host.HandleReadChunk | crates/teleport-daemon/src/host.rs:653-713 | an unknown inode is `FileNotFound`; an I/O failure is `IoError`; otherwise the bytes read at the chunk's byte offset, at most `CHUNK_SIZE` of them, their checksum and `is_final` |
| Host.HandleWriteChunk | crates/teleport-daemon/src/host.rs:716-796 | guards in the source's order: no valid exclusive lock is `LockRequired`, then a checksum mismatch, then an unknown inode, then I/O errors; otherwise success with the new size |
| Host.CollectEntries | crates/teleport-daemon/src/host.rs:594-622 | the loop skips `offset` entries, stops at the fetch limit, allocates an inode for each readable entry, and (when the table has room) collects exactly the readable entries from `offset` on, up to the fetch limit |
| Host.FetchLimit | crates/teleport-daemon/src/host.rs:592 | `limit.saturating_add(1)` |
| Host.StoppedEarly | crates/teleport-daemon/src/host.rs:598-600 | stopping once the fetch limit is reached yields the first `fetch` readable entries |
| Host.HandleListDir | crates/teleport-daemon/src/host.rs:576-651 | an unknown inode is `FileNotFound` and a failing `read_dir` its error code, table unchanged; otherwise at most `limit` entries, `next_offset = offset + returned`, every entry's inode in the table, and (with room) the entries are the readable ones from `offset` with `has_more` exactly when more than `limit` remained and `limit < u32::MAX` |
| Host.LookupStep | crates/teleport-daemon/src/host.rs:498-550 | an unknown parent finds nothing; an invalid name or a child outside the shared directory is `PathTraversal`; a child that exists gets an inode and its attributes; a missing child finds nothing; other errors are `IoError` |
| Host.LookupNamesChild | crates/teleport-daemon/src/host.rs:533-542 | a successful lookup's inode maps to the child path in the table |
| Host.HandleLookup | crates/teleport-daemon/src/host.rs:498-550 | the new table and the response are `LookupStep`'s |
| Host.HandleRequest | crates/teleport-daemon/src/host.rs:452-496 | each request is answered by its handler; only lookups and listings change the table; a write is validated against an exclusive lock at `now`; a `Ping` is answered by a `Pong` with the payload; anything else is `NotImplemented` |
| MultiHost.NewSharedFolder | crates/teleport-daemon/src/multi_host.rs:53-61 | a new share keeps the id, path and name it was given and accepts writes |
| MultiHost.ReadOnly | crates/teleport-daemon/src/multi_host.rs:63-66 | the same share, with the same id, path and name, no longer accepts writes |
| MultiHost.DefaultConfig | crates/teleport-daemon/src/multi_host.rs:82-92 | the default configuration listens on port 4433, admits 10 connections, has no share, and is named after the machine or "wormhole-host" when the name is unavailable |
| MultiHost.AddShare | crates/teleport-daemon/src/multi_host.rs:97-100 | the share is appended after the existing ones, which stay as they were, and the rest of the configuration is unchanged |
| MultiHost.AddSharesInOrder | crates/teleport-daemon/src/multi_host.rs:97-100 | shares added one after the other appear in the order they were added |
| MultiHost.SingleShare | crates/teleport-daemon/src/multi_host.rs:103-110 | a one-share configuration whose writable share has the given path and is named after its final component, or "share" when it has none |
| MultiHost.NewShareTable | crates/teleport-daemon/src/multi_host.rs:129-143 | a new share table is valid, maps `ROOT_INODE` to the share root and back, and counts from `FIRST_USER_INODE` |
| MultiHost.ShareAlloc | crates/teleport-daemon/src/multi_host.rs:149-171 | a known path keeps its inode; a new path gets the counter, recorded in both maps, exactly when the counter is below `MAX_LOCAL_INODE`; a refusal changes nothing |
| MultiHost.ShareAllocKeepsValid | crates/teleport-daemon/src/multi_host.rs:149-171 | allocation keeps the maps mutual inverses with every inode below the counter, and the issued inode names the path and lies below `MAX_LOCAL_INODE` |
| MultiHost.ShareAllocIdempotent | crates/teleport-daemon/src/multi_host.rs:149-153 | asking again for a path just given an inode returns that inode and changes nothing |
| MultiHost.ShareInodesFit | crates/teleport-daemon/src/multi_host.rs:157-160 | every inode of a valid share table fits in the 48-bit local part of a global inode |
| MultiHost.ShareInodeTable.constructor | crates/teleport-daemon/src/multi_host.rs:129-143 | the object's state is the new share table for its root, which is valid |
| MultiHost.ShareInodeTable.GetPath | crates/teleport-daemon/src/multi_host.rs:145-147 | a path exactly for a known inode, the one recorded |
| MultiHost.ShareInodeTable.GetOrCreateInode | crates/teleport-daemon/src/multi_host.rs:149-171 | the new state and the answer are those of `ShareAlloc`, and the table stays valid |
| MultiHost.BuildShares | crates/teleport-daemon/src/multi_host.rs:191-213 | one published entry per configured share, in order, rooted at `ROOT_INODE`; an inode table exists exactly for each configured share id and is rooted at one of that id's paths |
| MultiHost.ListShares | crates/teleport-daemon/src/multi_host.rs:496-503 | without a filter, every share; with one, exactly the shares with that id |
| MultiHost.Capabilities | crates/teleport-daemon/src/multi_host.rs:395-399 | "read" and "multi-share" always come first; "write" and "lock" follow exactly when some share is writable |
| MultiHost.WriteCapabilityExactly | crates/teleport-daemon/src/multi_host.rs:395-399 | "write" and "lock" are announced if and only if some share accepts writes |
| MultiHost.RouteRequest | crates/teleport-daemon/src/multi_host.rs:481-624 | share listings are answered from the published list; file requests go to the first share when it has a table; with no share or no table they fail as not found; a write to a read-only first share is refused with the inode; locks, pings and other requests go to their own handlers |
| MultiHost.ReadOnlyRefusalIgnoresTables | crates/teleport-daemon/src/multi_host.rs:580-587 | a write to a read-only first share is refused whatever tables the host holds |
| MultiHost.ServerTimestamp | crates/teleport-daemon/src/multi_host.rs:608-614 | the pong timestamp is the millisecond clock value whenever it fits in 64 bits |
| ConnectionManager.NewManagerValid | crates/teleport-daemon/src/connection_manager.rs:156-168 | a new manager, with no host, no share and share indices counted from 1, satisfies the registration invariant |
| ConnectionManager.NewHost | crates/teleport-daemon/src/connection_manager.rs:118-134 | a new host starts disconnected, with no share and no reconnect attempt, keeps its reconnect configuration, and is named by its display name or else its address |
| ConnectionManager.Reserve | crates/teleport-daemon/src/connection_manager.rs:311-335 | an index is taken exactly when the host is known and the index space is not exhausted: the next index, mapped to the share id, with the counter one further; otherwise nothing changes |
| ConnectionManager.Commit | crates/teleport-daemon/src/connection_manager.rs:337-372 | with the host still present the share is recorded under its id and appended to the host's list; with the host gone the reserved index is rolled back and the counter is not |
| ConnectionManager.Register | crates/teleport-daemon/src/connection_manager.rs:311-373 | registration succeeds exactly for a known host with indices left, with the next index, the index map, the share map and the host's list all updated; a refusal changes nothing |
| ConnectionManager.ReserveKeepsValid | crates/teleport-daemon/src/connection_manager.rs:322-334 | reserving keeps the invariant and leaves the index reserved for the share id |
| ConnectionManager.CommitKeepsValid | crates/teleport-daemon/src/connection_manager.rs:342-362 | committing a reserved index keeps the invariant, whether the host is still there or not |
| ConnectionManager.RegisterKeepsValid | crates/teleport-daemon/src/connection_manager.rs:311-373 | registration keeps every share reachable through the index it was registered under, with every index in [1, next) |
| ConnectionManager.ExhaustedStaysExhausted | crates/teleport-daemon/src/connection_manager.rs:326-330 | once the counter reaches `u16::MAX` every registration is refused and changes nothing |
| ConnectionManager.RegisterAll | crates/teleport-daemon/src/connection_manager.rs:231-235 | registering a host's shares one by one changes no host's name, status, attempts or configuration |
| ConnectionManager.RegisterAllKeepsValid | crates/teleport-daemon/src/connection_manager.rs:231-235 | registering a list of shares keeps the invariant |
| ConnectionManager.RegisterAllConsecutive | crates/teleport-daemon/src/connection_manager.rs:231-235 | with room left, the shares get consecutive indices from the current counter, in the order the host announced them |
| ConnectionManager.RegisterHead | crates/teleport-daemon/src/connection_manager.rs:322-334 | a successful registration maps the old counter to the share and moves the counter on by one |
| ConnectionManager.RegisterAllKeepsIndex | crates/teleport-daemon/src/connection_manager.rs:231-235 | registering more shares never changes an index handed out earlier and never moves the counter back |
| ConnectionManager.RemoveHostStep | crates/teleport-daemon/src/connection_manager.rs:376-397 | the host leaves the map and exactly its shares leave the share map; the index map and the counter are untouched; an unknown host changes nothing |
| ConnectionManager.RemoveHostKeepsValid | crates/teleport-daemon/src/connection_manager.rs:376-397 | removing a host keeps the invariant |
| ConnectionManager.GetShareByIndex | crates/teleport-daemon/src/connection_manager.rs:412-415 | a share exactly when the index is mapped to an id that is still registered, and then that share |
| ConnectionManager.RemovedHostUnreachable | crates/teleport-daemon/src/connection_manager.rs:376-397 | after a host is removed no index leads to one of its shares |
| ConnectionManager.ResolveInode | crates/teleport-daemon/src/connection_manager.rs:428-435 | the virtual root resolves to nothing; any other global inode resolves exactly when its share index finds a share, to that share and the local inode |
| ConnectionManager.UnregisteredIndexUnresolved | crates/teleport-daemon/src/connection_manager.rs:428-435 | share index 0 and indices not yet handed out resolve to nothing |
| ConnectionManager.NewManagerResolvesNothing | crates/teleport-daemon/src/connection_manager.rs:156-168 | a new manager resolves no global inode |
| ConnectionManager.RegisterThenResolve | crates/teleport-daemon/src/connection_manager.rs:311-373 | a global inode built from the index just registered resolves to that share and the local inode |
| ConnectionManager.RaceRollsBack | crates/teleport-daemon/src/connection_manager.rs:345-362 | when the host is removed between reserving and committing, the registration fails, the reserved index maps to nothing, the counter stays advanced, no share is added and the invariant holds |
| ConnectionManager.Connect | crates/teleport-daemon/src/connection_manager.rs:192-247 | an unknown host fails; an unreachable host is marked failed and nothing else changes; a failed handshake changes nothing; a completed one marks the host connected under its announced name with its attempts reset |
| ConnectionManager.UpdateHostKeepsValid | crates/teleport-daemon/src/connection_manager.rs:399-404 | changing a known host's own record keeps the invariant |
| ConnectionManager.ConnectKeepsValid | crates/teleport-daemon/src/connection_manager.rs:192-247 | every outcome of a connection attempt keeps the invariant |
| ConnectionManager.AddHostStep | crates/teleport-daemon/src/connection_manager.rs:176-189 | the host joins the map with its configuration, stays connecting when the handshake fails, and the call succeeds exactly when the handshake completes |
| ConnectionManager.AddHostKeepsValid | crates/teleport-daemon/src/connection_manager.rs:176-189 | adding a host keeps the invariant |
| ConnectionManager.BackoffClosedForm | crates/teleport-daemon/src/connection_manager.rs:792 | from the second attempt on, the k-th delay is the initial delay times 2^k, capped at the maximum |
| ConnectionManager.BackoffBounded | crates/teleport-daemon/src/connection_manager.rs:792 | with an initial delay within the cap, delays never exceed the cap and never shrink |
| ConnectionManager.BackoffShift | crates/teleport-daemon/src/connection_manager.rs:792 | the backoff restarted from the second delay is the same sequence shifted by one |
| ConnectionManager.ReconnectRound | crates/teleport-daemon/src/connection_manager.rs:750-794 | one round gives up with `Failed` exactly when a positive limit is passed, reconnects exactly when the handshake completes (attempts reset), and otherwise counts the attempt and doubles the delay up to the cap |
| ConnectionManager.Reconnect | crates/teleport-daemon/src/connection_manager.rs:748-795 | the loop keeps the set of hosts and their configurations and sleeps at most once per attempt |
| ConnectionManager.AttemptReconnectStep | crates/teleport-daemon/src/connection_manager.rs:736-746 | an unknown host changes nothing and sleeps never; the set of hosts is kept |
| ConnectionManager.ConnectionFailureStep | crates/teleport-daemon/src/connection_manager.rs:711-733 | an unknown host changes nothing; a host marked reconnecting is left so when reconnection is disabled; the set of hosts is kept |
| ConnectionManager.ReconnectSleepsBackoff | crates/teleport-daemon/src/connection_manager.rs:773-792 | the delays slept by the loop form the capped doubling sequence from the initial delay |
| ConnectionManager.ReconnectGivesUp | crates/teleport-daemon/src/connection_manager.rs:754-761 | with a positive limit and only failures, the loop sleeps once per remaining attempt and then marks the host failed with attempts one past the limit |
| ConnectionManager.UnlimitedNeverGivesUp | crates/teleport-daemon/src/connection_manager.rs:757 | with no limit the loop never gives up: one sleep per failed attempt |
| ConnectionManager.ReconnectSucceeds | crates/teleport-daemon/src/connection_manager.rs:775-779 | a completed handshake within the limit ends the loop after one sleep with the host connected and its attempts reset |
| ConnectionManager.RoundKeepsValid | crates/teleport-daemon/src/connection_manager.rs:750-794 | every round of the reconnect loop keeps the invariant |
| ConnectionManager.ReconnectKeepsValid | crates/teleport-daemon/src/connection_manager.rs:748-795 | the whole reconnect loop keeps the invariant |
| ConnectionManager.ConnectionManager.constructor | crates/teleport-daemon/src/connection_manager.rs:156-168 | the object starts in the new-manager state |
| ConnectionManager.ConnectionManager.RegisterShare | crates/teleport-daemon/src/connection_manager.rs:311-373 | the object's new state and the answer are `Register`'s |
| ConnectionManager.ConnectionManager.RemoveHost | crates/teleport-daemon/src/connection_manager.rs:376-397 | the object's new state is `RemoveHostStep`'s |
| ConnectionManager.ConnectionManager.ConnectHost | crates/teleport-daemon/src/connection_manager.rs:192-247 | the object's new state and the answer are `Connect`'s, including the registration of each announced share |
| ConnectionManager.ConnectionManager.AddHost | crates/teleport-daemon/src/connection_manager.rs:176-189 | the object's new state and the answer are `AddHostStep`'s |
| ConnectionManager.ConnectionManager.AttemptReconnect | crates/teleport-daemon/src/connection_manager.rs:736-796 | the object's new state and the delays slept are `AttemptReconnectStep`'s |
| ConnectionManager.ConnectionManager.ReconnectOnce | crates/teleport-daemon/src/connection_manager.rs:750-794 | the object's new state, whether it gave up or connected, and the next delay are `ReconnectRound`'s |
| ConnectionManager.ConnectionManager.HandleConnectionFailure | crates/teleport-daemon/src/connection_manager.rs:711-733 | the object's new state and the delays slept are `ConnectionFailureStep`'s |
| Mount.ToErrno | crates/teleport-daemon/src/bridge.rs:92-101 | a missing entry and only that becomes ENOENT; I/O and internal errors and only those become EIO; every error maps to one of ENOENT, EACCES, EIO, ETIMEDOUT, ESHUTDOWN |
| Mount.Key | crates/teleport-daemon/src/fuse.rs:156 | the cache key of a chunk names its inode and index |
| Mount.Visited | crates/teleport-daemon/src/fuse.rs:150-152 | a read of at least one byte visits at least one chunk |
| Mount.Stitch | crates/teleport-daemon/src/fuse.rs:177-199 | the stitching loop never returns more bytes than were asked for |
| Mount.ReadStitchedAsWritten | crates/teleport-daemon/src/fuse.rs:148-202 | the read as written panics exactly when it starts and ends in one chunk that was fetched and its start lies past that chunk's end; otherwise it agrees with the corrected read |
| Mount.ReadStitched | crates/teleport-daemon/src/fuse.rs:148-202 | the corrected read never returns more bytes than were asked for |
| Mount.ReadPastShortChunkPanics | crates/teleport-daemon/src/fuse.rs:155-164 | a 10-byte read at offset 200 of a 100-byte single chunk panics as written and returns no bytes when corrected |
| Mount.StitchFile | crates/teleport-daemon/src/fuse.rs:177-199 | stitching the chunks of a file from any position returns exactly the file's bytes there, stopping early at its end |
| Mount.ReadStitchedReadsFile | crates/teleport-daemon/src/fuse.rs:148-202 | the corrected read over the chunks of a file returns exactly the bytes of [offset, offset + size) clipped to the file's end |
| Mount.ReadSingleChunkOfFile | crates/teleport-daemon/src/fuse.rs:155-164 | a read within one chunk of a file returns the file's bytes there |
| Mount.SingleChunkIsStitch | crates/teleport-daemon/src/fuse.rs:155-199 | on one chunk the clamped single-chunk branch and the stitching loop give the same bytes |
| Mount.View | crates/teleport-daemon/src/fuse.rs:131-145 | a read of a chunk sees its cached copy when there is one and the network's answer otherwise |
| Mount.FetchStep | crates/teleport-daemon/src/fuse.rs:131-145 | a fetch returns what a read sees, caches a successful answer, and otherwise only adds chunks as the network served them |
| Mount.ExtendsKeepsView | crates/teleport-daemon/src/fuse.rs:142-143 | growing the cache with chunks the network served changes what no read sees |
| Mount.ExtendsTrans | crates/teleport-daemon/src/fuse.rs:142-143 | growth of the cache by served chunks composes over several fetches |
| Mount.FetchThenHit | crates/teleport-daemon/src/fuse.rs:133-136 | after a successful fetch the chunk is a hit: fetching again returns the same bytes and changes nothing, whatever the network answers |
| Mount.ViewChunks | crates/teleport-daemon/src/fuse.rs:176-183 | the chunks a read visits, each as a read of it sees it |
| Mount.ReadServedFile | crates/teleport-daemon/src/fuse.rs:148-202 | when cache and network serve a file, a read returns exactly the file's bytes in the requested range, clipped to its end |
| Mount.ExtendsServes | crates/teleport-daemon/src/fuse.rs:131-145 | fetching keeps a cache serving the file it served |
| Mount.VisitedInRange | crates/teleport-daemon/src/fuse.rs:150-152 | every chunk a read of a 32-bit size at a 64-bit offset visits has a 64-bit index |
| Mount.WriteStop | crates/teleport-daemon/src/winfsp.rs:445-457 | the write loop never runs backwards, and visits at least one chunk unless the write is empty and starts at a nonzero chunk boundary |
| Mount.PiecesTile | crates/teleport-daemon/src/winfsp.rs:457-495 | the pieces of consecutive chunks tile the data from its first byte to its last, each piece landing at the file position it came from |
| Mount.Zeros | crates/teleport-daemon/src/winfsp.rs:481-483 | the padding is the requested number of zero bytes |
| Mount.Patch | crates/teleport-daemon/src/winfsp.rs:480-487 | a patched chunk is as long as the longer of the chunk and the end of the piece |
| Mount.PatchAt | crates/teleport-daemon/src/winfsp.rs:485-487 | every byte of the piece lands at its offset in the patched chunk |
| Mount.PatchElsewhere | crates/teleport-daemon/src/winfsp.rs:480-483 | outside the piece, the patched chunk keeps the chunk's bytes and is zero past its old end |
| Mount.WrittenOutside | crates/teleport-daemon/src/winfsp.rs:457-495 | the write changes no chunk of another inode and no chunk outside the range it visits, in the cache or the dirty set |
| Mount.WrittenAt | crates/teleport-daemon/src/winfsp.rs:489-491 | every chunk the write visited is cached and dirty with the same patched contents |
| Mount.WriteLandsBytes | crates/teleport-daemon/src/winfsp.rs:457-495 | after a complete write every byte of the data is in the dirty copy of the chunk that holds its file position, at its position in that chunk |
| Mount.ChunkStore.constructor | crates/teleport-daemon/src/fuse.rs:44-55 | a new store has an empty cache and no dirty chunk |
| Mount.ChunkStore.FetchChunk | crates/teleport-daemon/src/fuse.rs:131-145 | the answer and the new cache are `FetchStep`'s; the dirty set is untouched |
| Mount.ChunkStore.ReadChunks | crates/teleport-daemon/src/fuse.rs:148-202 | the answer is the corrected read over what each visited chunk's read sees in the old cache; the cache only gains chunks the network served; the dirty set is untouched |
| Mount.ChunkStore.WriteChunk | crates/teleport-daemon/src/winfsp.rs:458-491 | one chunk starts from its cached, dirty or fetched copy (a missing chunk starts empty); on success its patched copy goes in the cache and the dirty set; another error fails with nothing changed |
| Mount.ChunkStore.StartingChunk | crates/teleport-daemon/src/winfsp.rs:467-477 | the starting copy is the cached one, else the dirty one, else the network's, which alone is cached; a missing chunk starts empty and any other error is returned |
| Mount.ChunkStore.WritePiece | crates/teleport-daemon/src/winfsp.rs:457-495 | one pass of the loop writes the chunk's piece and advances the written count to the next chunk's piece, or fails exactly where the whole write fails, with the earlier chunks written |
| Mount.ChunkStore.WriteChunks | crates/teleport-daemon/src/winfsp.rs:444-505 | the write succeeds exactly when every visited chunk has a starting copy, writing all the data into the cache and the dirty set; otherwise it stops at the first chunk that fails, with the chunks before it written |
| Fuse.Blocks | crates/teleport-daemon/src/fuse.rs:86 | the block count is the least number of 512-byte blocks that hold the file |
| Fuse.TimeOf | crates/teleport-daemon/src/fuse.rs:87-89 | a timestamp is the epoch plus its seconds and nanoseconds, both recoverable from it |
| Fuse.TimeOfOrdered | crates/teleport-daemon/src/fuse.rs:87-89 | timestamps keep the (seconds, nanoseconds) order |
| Fuse.KindOf | crates/teleport-daemon/src/fuse.rs:77-81 | files, directories and symlinks map to the kernel's regular-file, directory and symlink kinds, each exactly |
| Fuse.ToFuserAttr | crates/teleport-daemon/src/fuse.rs:76-100 | the kernel's attributes keep the inode, size, link count and owners, have the ceiling block count, the mapped kind, the mode cut to 16 bits and the converted timestamps |
| Fuse.KindsDistinct | crates/teleport-daemon/src/fuse.rs:77-81 | two attributes get the same kind if and only if they have the same file type |
| Fuse.AttrConversionExamples | crates/teleport-daemon/src/fuse.rs:455-472 | a 1024-byte file, inode 42, becomes a regular file of 2 blocks; a directory keeps inode 1 and the directory kind |
| Fuse.RemoteOf | crates/teleport-daemon/src/fuse.rs:139-142 | a miss asks the bridge for a whole chunk at the chunk's byte offset |
| Fuse.ReadReplyOf | crates/teleport-daemon/src/fuse.rs:291-302 | a successful read replies with its bytes; a failed one with the error's errno |
| Fuse.WormholeFs.constructor | crates/teleport-daemon/src/fuse.rs:44-55 | a new filesystem keeps its bridge and starts with an empty chunk cache |
| Fuse.WormholeFs.FetchChunk | crates/teleport-daemon/src/fuse.rs:131-145 | the answer and the new cache are those of a fetch through the bridge |
| Fuse.WormholeFs.Read | crates/teleport-daemon/src/fuse.rs:260-303 | the reply is the corrected stitched read over what each visited chunk's read sees, and the cache only gains chunks the bridge served |
| Fuse.ReadRepliesFile | crates/teleport-daemon/src/fuse.rs:260-303 | when the cache and the bridge serve a file, the reply is exactly the file's bytes in the requested range, clipped to its end |
| MultiFuse.PackInode | crates/teleport-daemon/src/multi_fuse.rs:199-205 | the packed inode holds the share index in its top 16 bits and the local inode's low 48 bits below |
| MultiFuse.UnpackInode | crates/teleport-daemon/src/multi_fuse.rs:193-196 | the share index and a 48-bit local inode that together make up the packed value |
| MultiFuse.PackRoundTrips | crates/teleport-daemon/src/multi_fuse.rs:193-205 | unpacking undoes packing for 48-bit local inodes, and packing undoes unpacking for every inode |
| MultiFuse.VirtualRootOnlyShareZero | crates/teleport-daemon/src/multi_fuse.rs:188-190 | a packed inode is the virtual root exactly when share 0's local inode is 1 |
| MultiFuse.PackingExamples | crates/teleport-daemon/src/multi_fuse.rs:831-855 | share 5, inode 12345 round-trips; inode 1 is the virtual root while 2, share 1's inode 1 and share 0's inode 2 are not |
| MultiFuse.ToFuserAttr | crates/teleport-daemon/src/multi_fuse.rs:233-260 | the single-share conversion with the inode packed under the share index, which unpacks back to the share and the local inode |
| MultiFuse.Candidate | crates/teleport-daemon/src/multi_fuse.rs:118-132 | the first name tried is the base name; later ones are the base name, an underscore and the attempt number |
| MultiFuse.CandidateInjective | crates/teleport-daemon/src/multi_fuse.rs:126-131 | different attempts try different names |
| MultiFuse.FirstFreeUnique | crates/teleport-daemon/src/multi_fuse.rs:126-131 | only one attempt can be the first free name |
| MultiFuse.TriedCount | crates/teleport-daemon/src/multi_fuse.rs:126-131 | the names tried before attempt c are c distinct names, none of them attempt c's |
| MultiFuse.UniqueMountName | crates/teleport-daemon/src/multi_fuse.rs:118-132 | the loop ends with the first candidate name not already taken |
| MultiFuse.Placeholder | crates/teleport-daemon/src/multi_fuse.rs:139-147 | a padding entry is disconnected, read-only, has no mount name and carries its position cut to 16 bits |
| MultiFuse.Padded | crates/teleport-daemon/src/multi_fuse.rs:139-148 | padding keeps the existing entries and fills the rest up to the wanted length with placeholders |
| MultiFuse.PaddedStep | crates/teleport-daemon/src/multi_fuse.rs:139-148 | each pass of the padding loop appends one placeholder |
| MultiFuse.WithShare | crates/teleport-daemon/src/multi_fuse.rs:136-155 | after adding at an index the list reaches past it, the share sits connected at the index, and every other entry is what it was or a placeholder |
| MultiFuse.WithShareIndexed | crates/teleport-daemon/src/multi_fuse.rs:136-155 | adding a share keeps every entry at the position its index names |
| MultiFuse.AddShareExamples | crates/teleport-daemon/src/multi_fuse.rs:858-887 | a share added at index 1 to an empty list sits behind a placeholder at 0; a second share with the same base name is named with the suffix "_1" |
| MultiFuse.HostAnswer | crates/teleport-daemon/src/multi_fuse.rs:283-295 | every failure of the host read reaches the filesystem as EIO |
| MultiFuse.RemoteOf | crates/teleport-daemon/src/multi_fuse.rs:283-295 | a chunk keyed by a packed inode is read from the share and local chunk the inode names |
| MultiFuse.NothingMissing | crates/teleport-daemon/src/multi_fuse.rs:691-699 | since the host's failures come back as EIO, the write's ENOENT fallback never applies |
| MultiFuse.FetchAsWritten | crates/teleport-daemon/src/multi_fuse.rs:273-296 | the fetch as written: a hit on the share-local chunk id returns the cached bytes whatever the share; a miss asks that share |
| MultiFuse.SharesAliasAsWritten | crates/teleport-daemon/src/multi_fuse.rs:275-288 | after share 1's chunk (5, 0) is cached, a read of share 2's chunk (5, 0) returns share 1's bytes although share 2 serves different ones |
| MultiFuse.SharesApart | crates/teleport-daemon/src/multi_fuse.rs:273-296 | keyed by the packed inode, the same two reads each get their own share's bytes |
| MultiFuse.WriteAliasesAsWritten | crates/teleport-daemon/src/multi_fuse.rs:680-726 | once bytes are stored under the local chunk id (5, 0), as the write path does, share 2's read of its own chunk (5, 0) returns them although share 2 serves other bytes |
| MultiFuse.WritesApart | crates/teleport-daemon/src/multi_fuse.rs:680-726 | keyed by the packed inode, a chunk one share writes leaves every other share's read of the same local chunk as it was |
| MultiFuse.ReadsOwnShare | crates/teleport-daemon/src/multi_fuse.rs:273-296 | with a cache that holds only what the shares served, a fetch under a packed inode returns what its own share serves for that chunk |
| MultiFuse.ReadReplyOf | crates/teleport-daemon/src/multi_fuse.rs:491-498 | a successful read replies with its bytes, a failed one with its errno |
| MultiFuse.MultiShareFs.constructor | crates/teleport-daemon/src/multi_fuse.rs:79-111 | a new filesystem has no share, no mount name and an empty cache |
| MultiFuse.MultiShareFs.AddShareWithIndex | crates/teleport-daemon/src/multi_fuse.rs:114-158 | the share is mounted under the given name or the first free candidate, which maps to the index; the list becomes `WithShare`'s; looking the name up in the virtual root finds the share's root |
| MultiFuse.MultiShareFs.AddShare | crates/teleport-daemon/src/multi_fuse.rs:163-169 | the share is added at the list's length cut to 16 bits |
| MultiFuse.MultiShareFs.RemoveShare | crates/teleport-daemon/src/multi_fuse.rs:172-180 | a listed share is marked disconnected and its name unmapped, so the virtual root no longer finds it; an index past the end changes nothing |
| MultiFuse.MultiShareFs.Read | crates/teleport-daemon/src/multi_fuse.rs:462-498 | the virtual root fails with EISDIR; any other inode gets the corrected stitched read, with the cache only gaining served chunks |
| MultiFuse.MultiShareFs.Write | crates/teleport-daemon/src/multi_fuse.rs:627-735 | the virtual root fails with EISDIR and a read-only filesystem or share with EROFS, changing nothing; otherwise the write succeeds exactly when every visited chunk can be read, reports the data's length and leaves every piece cached and dirty, or fails with EIO with the chunks before the failing one written |
| Winfsp.AttributesOf | crates/teleport-daemon/src/winfsp.rs:138-142 | directories, files and symlinks get 0x10, 0x80 and 0x400 respectively, each exactly |
| Winfsp.AllocationSize | crates/teleport-daemon/src/winfsp.rs:146 | the allocation is a multiple of 4096 and, unless the rounding addition wraps, the least one that holds the file |
| Winfsp.FileTimeInverse | crates/teleport-daemon/src/winfsp.rs:150-159 | below the 64-bit wrap a FILETIME is the Unix second times 10^7 plus the 1601 epoch offset: the second can be read back and later seconds get later FILETIMEs |
| Winfsp.AttrToFileInfo | crates/teleport-daemon/src/winfsp.rs:136-163 | the file information has the type's attribute, the size, the rounded allocation, the three times as FILETIMEs (the change time standing for creation) and the inode as index number |
| Winfsp.FileInfoExamples | crates/teleport-daemon/src/winfsp.rs:772-790 | a 1024-byte file, inode 42, gets 0x80 and a 4096-byte allocation; a directory gets 0x10 and keeps inode 1 |
| Winfsp.SplitPath | crates/teleport-daemon/src/winfsp.rs:278 | splitting always yields at least one piece |
| Winfsp.SplitWhole | crates/teleport-daemon/src/winfsp.rs:278 | a string without separators is a single piece |
| Winfsp.SplitPieces | crates/teleport-daemon/src/winfsp.rs:278 | no piece holds a separator, and a string with a separator splits into at least two pieces |
| Winfsp.LookupError | crates/teleport-daemon/src/winfsp.rs:297-303 | a lookup that finds nothing becomes "object name not found", exactly; any other error keeps its status |
| Winfsp.WalkAppend | crates/teleport-daemon/src/winfsp.rs:288-305 | walking two lists of names is walking the first, then the second from where the first ended |
| Winfsp.ResolvePath | crates/teleport-daemon/src/winfsp.rs:270-308 | the loop returns the parent directory reached by looking up the non-empty interior components from the root, with the last component, or the first failed lookup's error |
| Winfsp.ResolveRootEntry | crates/teleport-daemon/src/winfsp.rs:282-285 | a single name, with or without a leading backslash, is an entry of the root |
| Winfsp.ResolveRoot | crates/teleport-daemon/src/winfsp.rs:273-276 | the empty path and a lone backslash name the root itself as "." |
| Winfsp.ResolveDescends | crates/teleport-daemon/src/winfsp.rs:288-307 | resolving `dir\rest` looks `dir` up in the root and resolves the interior of `rest` from there |
| Winfsp.SplitPrefix | crates/teleport-daemon/src/winfsp.rs:278 | splitting `dir\rest` gives `dir` followed by the pieces of `rest` |
| Winfsp.InfoAfterWrite | crates/teleport-daemon/src/winfsp.rs:500-503 | after a write the file information is refreshed exactly when `getattr` succeeds, and then from those attributes |
| Winfsp.WinFs.constructor | crates/teleport-daemon/src/winfsp.rs:110-124 | a new filesystem keeps its bridge and writability and starts with an empty cache and dirty set |
| Winfsp.WinFs.Read | crates/teleport-daemon/src/winfsp.rs:385-421 | the buffer receives the corrected stitched read of its length cut to 32 bits, never more bytes than it holds; failures keep their status; the cache only gains served chunks |
| Winfsp.WinFs.Write | crates/teleport-daemon/src/winfsp.rs:423-506 | a read-only filesystem refuses as write-protected and changes nothing; otherwise the write succeeds exactly when every visited chunk can be read (a missing one starts empty), reports the buffer's length and refreshes the file information, or fails with the chunk's error with the chunks before it written |
| Winfsp.ReadFillsFromFile | crates/teleport-daemon/src/winfsp.rs:385-421 | when the cache and the bridge serve a file, the read returns exactly the file's bytes in the requested range, clipped to its end |
| Rendezvous.FirstOnLan | crates/teleport-daemon/src/rendezvous.rs:413-432 | the result is the first peer local address, from the given position on, that is IPv4 and shares its first three octets with one of our own IPv4 addresses; none means no later address does |
| Rendezvous.SelectBestAddress | crates/teleport-daemon/src/rendezvous.rs:408-445 | the chosen address always carries the peer's QUIC port; selection fails with NoPeerAddress exactly when the peer has neither a public nor a local address; the address is marked local exactly when some peer local address is on our LAN |
| Rendezvous.SelectionOrder | crates/teleport-daemon/src/rendezvous.rs:413-442 | the preference order: the first LAN address wins; with none on our LAN the public address is used; with no public address the first local address is used, marked not local |
| Rendezvous.Ipv6NeverLocal | crates/teleport-daemon/src/rendezvous.rs:416-418 | a peer that advertises only IPv6 local addresses is never reported as reachable on the LAN |
| Rooms.NewRoom | crates/teleport-signal/src/room.rs:35-44 | a new room has no peers and no host, so it satisfies the room invariant (at most MAX_PEERS_PER_ROOM peers, and a recorded host is one of them) |
| Rooms.GetPeer | crates/teleport-signal/src/room.rs:83-85 | a peer is found exactly when its id is in the room, and then it is that peer's info |
| Rooms.Host | crates/teleport-signal/src/room.rs:99-101 | the host is reported exactly when a host id is recorded and that id is still a peer of the room |
| Rooms.IsEmpty | crates/teleport-signal/src/room.rs:119-121 | a room is empty exactly when no peer id is in it |
| Rooms.IsIdle | crates/teleport-signal/src/room.rs:124-126 | a room is idle exactly when at least `timeout + 1` whole seconds have passed since its last activity, that is, when the elapsed whole seconds exceed the timeout |
| Rooms.AddPeerRefusesWhenFull | crates/teleport-signal/src/room.rs:47-50 | adding fails exactly when the room already holds MAX_PEERS_PER_ROOM (10) peers, and then the room is unchanged and the error is RoomFull |
| Rooms.AddPeerKeepsValid | crates/teleport-signal/src/room.rs:47-70 | adding a peer keeps the room invariant (at most 10 peers, host among them) |
| Rooms.AddedPeerPresent | crates/teleport-signal/src/room.rs:55-66 | after a successful add the peer can be looked up with its info, and a host peer becomes the room's host |
| Rooms.RemovePeerResult | crates/teleport-signal/src/room.rs:72-80 | removing returns the peer's info if it was present, leaves every other peer in place and clears the host when the host leaves |
| Rooms.RemovePeerKeepsValid | crates/teleport-signal/src/room.rs:72-80 | removing a peer keeps the room invariant (at most 10 peers, host among them) |
| Rooms.UpdatePeerResult | crates/teleport-signal/src/room.rs:88-96 | updating an unknown peer changes nothing and answers false; updating a known peer answers true, replaces its info, keeps the set of peers and the host id |
| Rooms.AddRemoveExample | crates/teleport-signal/src/room.rs:164-184 | the add/remove scenario: host then client join (1 then 2 peers, host reported), client then host leave, and the room ends empty with no host |
| Rooms.Room.constructor | crates/teleport-signal/src/room.rs:35-44 | the new object's state is the new room value |
| Rooms.Room.AddPeer | crates/teleport-signal/src/room.rs:47-70 | the new state and the answer are those of the add step on the old state |
| Rooms.Room.RemovePeer | crates/teleport-signal/src/room.rs:72-80 | the new state and the removed info are those of the remove step |
| Rooms.Room.UpdatePeer | crates/teleport-signal/src/room.rs:88-96 | the new state and the answer are those of the update step |
| Rooms.Room.Touch | crates/teleport-signal/src/room.rs:129-131 | only the last-activity time changes |
| Signal.ChosenCode | crates/teleport-signal/src/server.rs:295-298 | the code a room is created under is already in normal form (upper case, no separators) |
| Signal.CreatorInfo | crates/teleport-signal/src/server.rs:311-326 | the creator's entry always carries the server-assigned id, the connection's address and the host flag; its local addresses and QUIC port come from the supplied info, or are empty and 4433 without one |
| Signal.AlreadyInRoomChangesNothing | crates/teleport-signal/src/server.rs:288-293 | a connection already in a room that asks to create or join one is refused with AlreadyInRoom and nothing changes |
| Signal.CreateRoomResult | crates/teleport-signal/src/server.rs:287-343 | creating under a code already in use is refused with InvalidJoinCode and changes nothing; otherwise exactly one new room appears, holding the creator alone as its host, the creator is recorded in it, the other rooms are untouched and the reply is RoomCreated with the code |
| Signal.CreateUnderResult | crates/teleport-signal/src/server.rs:302-342 | once the code is chosen: an existing code is refused; a fresh one gets a room whose only peer and host is the creator, and the creator's room becomes that code |
| Signal.CreateRoomCode | crates/teleport-signal/src/server.rs:295-298 | a requested code that validates is used in normal form, any other request gets a generated code, and either way the chosen code validates |
| Signal.JoinRoomResult | crates/teleport-signal/src/server.rs:353-392 | the code is normalised; a missing room is refused with RoomNotFound and a full one with RoomFull, both without change; a successful join adds the joiner (no local addresses, port 4433, not host), records its room and replies with the host as it was before the join |
| Signal.LeaveRoomResult | crates/teleport-signal/src/server.rs:395-401 | leaving clears the connection's room and the peer's entry, takes the peer out of its room, deletes the room once it has no peer left and touches no other room |
| Signal.PingPong | crates/teleport-signal/src/server.rs:403 | a ping is answered with a pong carrying the same timestamp and changes nothing |
| Signal.HandleKeepsValid | crates/teleport-signal/src/server.rs:278-426 | after any message every room is still stored under its own code, holds at most 10 peers with its host among them, and is not empty |
| Signal.CreateKeepsValid | crates/teleport-signal/src/server.rs:287-343 | creating a room keeps the server invariant |
| Signal.JoinKeepsValid | crates/teleport-signal/src/server.rs:345-393 | joining a room keeps the server invariant |
| Signal.UpdateKeepsValid | crates/teleport-signal/src/server.rs:405-419 | a peer-info update keeps the server invariant |
| Signal.LeaveKeepsValid | crates/teleport-signal/src/server.rs:429-446 | leaving keeps the server invariant, because an emptied room is removed |
| Signal.RelayStep | crates/teleport-signal/src/server.rs:158-184 | a relay is forwarded exactly when the sender is in a room and the target is recorded in that same room, and then as a Relayed message from the sender with the same payload; a sender in no room is refused with NotInRoom |
| Signal.SignalServer.constructor | crates/teleport-signal/src/server.rs:34-41 | a new server has no rooms and no peers and satisfies the invariant |
| Signal.SignalServer.HandleMessage | crates/teleport-signal/src/server.rs:278-426 | the new shared maps, the reply and the connection's room are those of the message step on the old maps |
| Signal.SignalServer.CleanupIdleRooms | crates/teleport-signal/src/server.rs:449-460 | exactly the rooms idle longer than 300 seconds are removed, the peer map is untouched and the invariant still holds |
| Signal.SweepStart | crates/teleport-signal/src/server.rs:450-454 | the collected join codes are exactly the idle rooms' keys, because every room is stored under its own code |
| Signal.SweepStep | crates/teleport-signal/src/server.rs:456-459 | removing one collected code keeps the sweep invariant and shrinks what is left to remove |
| Signal.SweepDone | crates/teleport-signal/src/server.rs:456-459 | once every collected code is removed the rooms left are exactly the active ones and the invariant holds |
| DeepLink.Upper | apps/desktop/src-tauri/src/lib.rs:53 | upper-casing keeps the length and maps every character through the ASCII upper-case mapping |
| DeepLink.SchemeRest | apps/desktop/src-tauri/src/lib.rs:36-38 | a path is returned only for a link that starts with the wormhole scheme |
| DeepLink.Clean | apps/desktop/src-tauri/src/lib.rs:53-68 | a cleaned code is at least six characters, each a digit, an upper-case ASCII letter or a dash |
| DeepLink.ParseDeepLink | apps/desktop/src-tauri/src/lib.rs:27-69 | a code comes only from a link whose trimmed form starts with the wormhole scheme, and it is always a well-formed code of at least six characters |
| DeepLink.TrimKeepsCode | apps/desktop/src-tauri/src/lib.rs:53 | trimming leaves a well-formed code unchanged |
| DeepLink.UpperKeepsCode | apps/desktop/src-tauri/src/lib.rs:53 | upper-casing leaves a well-formed code unchanged |
| DeepLink.CleanCodeFixed | apps/desktop/src-tauri/src/lib.rs:53-68 | cleaning a well-formed code gives it back: cleaning is idempotent on its own results |
| DeepLink.PrefixStripped | apps/desktop/src-tauri/src/lib.rs:44-50 | after a "join/" prefix, a "j/" prefix or none, a well-formed code is extracted unchanged |
| DeepLink.SchemeStripped | apps/desktop/src-tauri/src/lib.rs:36-38 | either scheme in front of a path not starting with a slash is stripped to exactly that path |
| DeepLink.LinkTrimmed | apps/desktop/src-tauri/src/lib.rs:33 | a link that starts with the scheme and does not end in whitespace is left alone by the trim |
| DeepLink.LinkPath | apps/desktop/src-tauri/src/lib.rs:33-69 | a link made of a scheme and a path carries the code the path carries |
| DeepLink.LinkForm | apps/desktop/src-tauri/src/lib.rs:28-30 | every well-formed code is recovered from a link of the "join/" or "j/" form under either scheme |
| DeepLink.LinkRoundTrip | apps/desktop/src-tauri/src/lib.rs:28-31 | the round trip: building a link of any of the three documented forms from a well-formed code and parsing it gives the code back |
| DeepLink.LinkBare | apps/desktop/src-tauri/src/lib.rs:31 | a well-formed code straight after either scheme is recovered |
| DeepLink.ParseIdempotent | apps/desktop/src-tauri/src/lib.rs:27-69 | the code parsed from any link, put back into a "join/" link, parses to the same code |
| DeepLink.NoSchemeNoCode | apps/desktop/src-tauri/src/lib.rs:36-38 | a link without the wormhole scheme carries no code |
| DeepLink.SampleIsLinkCode | apps/desktop/src-tauri/src/lib.rs:199-214 | the sample code of the tests is well formed |
| DeepLink.AcceptedExamples | apps/desktop/src-tauri/src/lib.rs:199-214 | the three documented link forms with ABC-123 all parse to ABC-123 |
| DeepLink.LowerCleansBack | apps/desktop/src-tauri/src/lib.rs:53 | a well-formed code typed in lower case cleans back to the code |
| DeepLink.CaseInsensitive | apps/desktop/src-tauri/src/lib.rs:53 | link codes are case-insensitive: a lower-cased code in a "join/" link parses to the upper-case code |
| DeepLink.LowerCaseExample | apps/desktop/src-tauri/src/lib.rs:217-220 | the lower-case test link parses to ABC-123 |
| DeepLink.RefusedExamples | apps/desktop/src-tauri/src/lib.rs:229-231 | a link with no code, an empty "join/" link and a too-short code are refused |
| Updater.ParseChannel | crates/teleport-daemon/src/updater.rs:88-95 | parsing ignores case: a parsed channel is the one whose name, or for Nightly one of the aliases alpha and dev, the lower-cased input is; anything else fails with "Unknown channel: " and the input |
| Updater.ChannelRoundTrip | crates/teleport-daemon/src/updater.rs:75-95 | the round trip: every channel's displayed name parses back to that channel |
| Updater.ParseIgnoresCase | crates/teleport-daemon/src/updater.rs:89 | the input and its lower-cased form parse alike |
| Updater.ChannelExamples | crates/teleport-daemon/src/updater.rs:607-624 | STABLE parses as Stable, and alpha and dev as Nightly |
| Updater.ChannelsNest | crates/teleport-daemon/src/updater.rs:383-393 | the channels nest: Beta accepts what Stable accepts and Nightly accepts everything; Stable accepts exactly the non-prereleases, and Beta refuses exactly the prereleases whose tag contains neither "beta" nor "rc" |
| Updater.WithUrl | crates/teleport-daemon/src/updater.rs:396-424 | setting one platform's slot gives it that URL and leaves the other four slots as they were |
| Updater.Classify | crates/teleport-daemon/src/updater.rs:400-420 | an asset goes to the Windows slot only when its lower-cased name names an x64 build, and to another slot only when the name names macOS or Linux |
| Updater.ClassifyIgnoresCase | crates/teleport-daemon/src/updater.rs:400 | classification does not depend on the case of the asset name |
| Updater.LastUrl | crates/teleport-daemon/src/updater.rs:399-421 | a slot holds the URL of an asset classified to it, and is empty exactly when no asset is classified to it |
| Updater.UrlForOf | crates/teleport-daemon/src/updater.rs:396-424 | each slot of the extracted URL set is the URL of the last asset classified to that slot |
| Updater.ExtractDownloadUrls | crates/teleport-daemon/src/updater.rs:396-424 | after the pass over the assets every slot holds the URL of the last asset classified to it |
| Updater.UrlsEqual | crates/teleport-daemon/src/updater.rs:396-424 | two URL sets that agree on every platform slot are equal |
| Updater.LaterAssetWins | crates/teleport-daemon/src/updater.rs:399-421 | a later asset of a platform overwrites the slot an earlier one filled |
| Updater.OtherAssetSkipped | crates/teleport-daemon/src/updater.rs:399-421 | an asset of another platform, or of none, leaves a slot as it was |
| Updater.CriticalIffKeyword | crates/teleport-daemon/src/updater.rs:427-443 | a release is critical exactly when its lower-cased name and body mention one of the seven keywords |
| Updater.CriticalFromBody | crates/teleport-daemon/src/updater.rs:428-442 | a keyword in the body alone makes a release critical |
| Updater.CriticalFromName | crates/teleport-daemon/src/updater.rs:428-442 | a keyword in the name alone makes a release critical |
| Updater.FirstEligibleFrom | crates/teleport-daemon/src/updater.rs:322-345 | the result is the first release from the position on that is not a draft, is accepted by the channel and has a tag that parses; none means no later release is |
| Updater.SelectedIsNewer | crates/teleport-daemon/src/updater.rs:322-377 | an offered update is strictly newer than the running version and is built from the first release the loop does not skip |
| Updater.FirstEligibleDecides | crates/teleport-daemon/src/updater.rs:347-353 | a first usable release that is not newer ends the search with no update, even when a newer one follows |
| Updater.DraftSkipped | crates/teleport-daemon/src/updater.rs:324-326 | a draft at the head of the list changes nothing about the selection |
| Updater.SameFirstSameSelection | crates/teleport-daemon/src/updater.rs:322-377 | two release lists whose first usable release is the same select the same update |
| Updater.SkippedShift | crates/teleport-daemon/src/updater.rs:322-345 | skipping an unusable head release shifts the search by one position and nothing else |
| Updater.FetchLatestRelease | crates/teleport-daemon/src/updater.rs:317-379 | an empty release list is the NoReleases error; otherwise the loop's answer is the selection: the first usable release if it is newer, else no update |
| Updater.NewChecker | crates/teleport-daemon/src/updater.rs:204-225 | a new checker uses the one-day default interval and does not skip the cache |
| Updater.WithInterval | crates/teleport-daemon/src/updater.rs:233-236 | the interval is never below one hour: a shorter one is raised to one hour, a longer one is kept, and no other setting changes |
| Updater.ReadCache | crates/teleport-daemon/src/updater.rs:446-469 | a cache is used only when decoded and written while the same version ran; one from another version is ignored; reading fails exactly when a cache path is set and the file cannot be read or decoded |
| Updater.CheckForUpdate | crates/teleport-daemon/src/updater.rs:245-284 | with the cache skipped the answer is the fetch; an unreadable cache fails the check; a cache from another version gives way to the fetch; the answer differs from the fetch only for an unreadable cache or a fresh cache of the running version, whose stored answer is returned |
| Updater.CriticalExample | crates/teleport-daemon/src/updater.rs:634-648 | the security-fix release of the tests is critical |
| Updater.OrdinaryTextHasNoKeyword | crates/teleport-daemon/src/updater.rs:650-661 | the text of the ordinary release of the tests contains none of the keywords |
| Updater.OrdinaryTextLacks | crates/teleport-daemon/src/updater.rs:650-661 | each keyword is absent from that text |
| Updater.NotCriticalExample | crates/teleport-daemon/src/updater.rs:650-661 | the bug-fix release of the tests is not critical |
| Updater.MacAssetExample | crates/teleport-daemon/src/updater.rs:669-673 | the macOS arm64 asset of the tests is classified to the macOS arm slot |
| Updater.MacArmName | crates/teleport-daemon/src/updater.rs:402-404 | a lower-case name naming macOS and arm64 goes to the macOS arm slot |
| Updater.NoMacMarker | crates/teleport-daemon/src/updater.rs:402 | a name with neither 'c' nor 'd' names neither macos nor darwin |
| Updater.NoWindowsUnixMarker | crates/teleport-daemon/src/updater.rs:402-408 | a name with neither 'c', 'a' nor 'u' names neither macOS nor Linux |
| Updater.NoArmMarker | crates/teleport-daemon/src/updater.rs:403 | a name with no 'c' and no "m6" names neither arm64 nor aarch64 |
| Updater.LinuxX64Name | crates/teleport-daemon/src/updater.rs:408-413 | a lower-case Linux x86_64 name with no macOS or arm marker goes to the Linux x64 slot |
| Updater.WindowsX64Name | crates/teleport-daemon/src/updater.rs:415-419 | a lower-case Windows x64 name with no macOS or Linux marker goes to the Windows slot |
| Updater.LinuxAssetMarkers | crates/teleport-daemon/src/updater.rs:674-678 | the Linux asset name of the tests is lower case and names linux and x86_64 |
| Updater.LinuxAssetNotMac | crates/teleport-daemon/src/updater.rs:674-678 | the Linux asset name of the tests names no macOS build |
| Updater.LinuxAssetNotArm | crates/teleport-daemon/src/updater.rs:674-678 | the Linux asset name of the tests names no arm build |
| Updater.LinuxAssetExample | crates/teleport-daemon/src/updater.rs:674-678 | the Linux asset of the tests is classified to the Linux x64 slot |
| Updater.WindowsAssetMarkers | crates/teleport-daemon/src/updater.rs:679-683 | the Windows asset name of the tests is lower case and names windows and x64 |
| Updater.WindowsAssetExample | crates/teleport-daemon/src/updater.rs:679-683 | the Windows asset of the tests is classified to the Windows slot |
| Updater.WindowsAssetNotUnix | crates/teleport-daemon/src/updater.rs:679-683 | the Windows asset name of the tests names neither macOS nor Linux |
| Updater.DownloadUrlsExample | crates/teleport-daemon/src/updater.rs:665-699 | the extraction test: the three assets fill the macOS arm, Linux x64 and Windows slots with their own URLs |
| Updater.ThreeAssets | crates/teleport-daemon/src/updater.rs:396-424 | three assets classified to three different slots each fill their own slot |
| Icons.Pixels | apps/desktop/src-tauri/icons/create_icons.py:19-20 | a row of n pixels is 4n bytes |
| Icons.Row | apps/desktop/src-tauri/icons/create_icons.py:18-20 | a scanline is one filter byte followed by four bytes per pixel |
| Icons.Rows | apps/desktop/src-tauri/icons/create_icons.py:17-20 | k scanlines take k times the size of one |
| Icons.PixelsAt | apps/desktop/src-tauri/icons/create_icons.py:19-20 | byte c of pixel x in a row is component c of the purple colour #7C3AED, fully opaque |
| Icons.RowsAt | apps/desktop/src-tauri/icons/create_icons.py:17-20 | every byte of scanline y is the corresponding byte of one row |
| Icons.RawLayout | apps/desktop/src-tauri/icons/create_icons.py:15-20 | the raw image of a square of side size is size scanlines of 1 + 4 size bytes; each scanline starts with filter type None, and byte c of pixel (x, y) is component c of the colour |
| Icons.RowAt | apps/desktop/src-tauri/icons/create_icons.py:19-20 | byte c of pixel x within one scanline is component c of the colour |
| Icons.BuildRaw | apps/desktop/src-tauri/icons/create_icons.py:16-20 | the nested loop builds exactly the raw image: scanline by scanline, filter byte then pixels |
| Icons.ChunkBytes | apps/desktop/src-tauri/icons/create_icons.py:31-39 | a chunk takes 12 bytes of overhead (length, type, CRC) besides its data |
| Icons.IhdrData | apps/desktop/src-tauri/icons/create_icons.py:29 | the IHDR payload is 13 bytes |
| Icons.PngFile | apps/desktop/src-tauri/icons/create_icons.py:8-43 | a PNG file can be built exactly when the side and the compressed stream both fit a big-endian u32 length field; otherwise struct.pack raises |
| Icons.CreatePng | apps/desktop/src-tauri/icons/create_icons.py:8-43 | the bytes written are those of the PNG file, or none when a length does not fit 32 bits |
| Icons.ReadChunk | apps/desktop/src-tauri/icons/create_icons.py:30-39 | reading a chunk needs at least its 12 bytes of overhead and always consumes some input |
| Icons.ChunkReadsBack | apps/desktop/src-tauri/icons/create_icons.py:30-39 | the round trip: a chunk written as length, type, data and CRC of type and data (masked to 32 bits) reads back as that type, data and CRC, leaving what follows |
| Icons.PngFrames | apps/desktop/src-tauri/icons/create_icons.py:26-43 | the file is the PNG signature followed by the IHDR, IDAT and IEND chunks in that order, with the IDAT holding the compressed image |
| Icons.PngReadsBack | apps/desktop/src-tauri/icons/create_icons.py:26-43 | the file starts with the signature and its chunk stream reads back as exactly the three chunks written |
| Icons.WrittenCrcsMatch | apps/desktop/src-tauri/icons/create_icons.py:30-39 | every written chunk's CRC is the CRC-32 of its type and data |
| Icons.ThreeChunks | apps/desktop/src-tauri/icons/create_icons.py:43 | three chunks that each read back in turn make a stream that reads back as those three |
| Icons.IhdrFields | apps/desktop/src-tauri/icons/create_icons.py:29 | the IHDR payload holds the width and the height as big-endian u32 values, followed by bit depth 8, colour type 6 and zero compression, filter and interlace methods |
| Icons.CreateIcons | apps/desktop/src-tauri/icons/create_icons.py:47-56 | the icons are written in order as 32x32.png (32), 128x128.png (128), 128x128@2x.png (256) and icon.png (512), each holding its PNG file; the script stops early only when a compressed stream does not fit 32 bits |
| Strings.TrimStart | apps/desktop/src-tauri/src/lib.rs:41 | `trim_start_matches` with one character: the result is no longer than the input and does not start with that character |
| Strings.TrimStartSplits | apps/desktop/src-tauri/src/lib.rs:41 | the trimmed string is a suffix of the input and everything cut off is the trimmed character |
| Strings.StripPrefix | apps/desktop/src-tauri/src/lib.rs:36-38 | `strip_prefix` succeeds exactly when the prefix is a prefix of the input, and then the input is the prefix followed by the result |
| Strings.ToAsciiLower | crates/teleport-daemon/src/updater.rs:89 | the lowered character is never an upper-case ASCII letter, and a character that is not one is left alone |
| Strings.LowerAscii | crates/teleport-daemon/src/updater.rs:89 | lowering keeps the length and lowers every character |
| Strings.LowerAsciiTwice | crates/teleport-daemon/src/updater.rs:89 | lowering is idempotent |

## Left out

- Transport and I/O are outside the model: QUIC connections, the WebSocket loop of the signal server, the FUSE and WinFSP kernel interfaces, the Tauri application, HTTP requests to GitHub, and file reads and writes. Their outcomes are parameters (a `now`, random bytes, a read or fetch result, a released stream).
- The rest of `rendezvous.rs` is not modelled: the WebSocket client, PAKE key exchange and hole punching. Only `select_best_address` is.
- BLAKE3, SHA-256, bincode, zstd, zlib `compress`, CRC-32 and semver parsing and ordering are abstract: uninterpreted functions, functions passed in, or a type parameter with its parser and order.
- Floating-point logic is left out:
  - `gc.rs` `usage_percent` and the fractional watermarks: `Gc` takes the high and low thresholds as byte counts;
  - `calculate_optimal_streams` in `stream_pool.rs`: `StreamPool.StreamPool.UpdateMeasurements` takes the stream count it would compute as a parameter;
  - the transfer speed, ETA and `estimate_transfer_time` of `bulk_transfer.rs`;
  - `CompressionStats::ratio` and `savings_percent`;
  - `SmartCompressor::shannon_entropy`, the `hit_rate` of the dedup index and of the buffer pool statistics, and `utilization` and `backpressure_rate` of the stream pool statistics.
- Concurrency is left out. `RwLock`, `DashMap`, atomics and the prefetch threads are read as sequential state, one operation at a time.
- The `lru` crate's `LruCache` is modelled (module `Lru`) as a sequence of key and value pairs, least recently used first, and not as its linked hash map.
- Operations left out:
  - `BulkTransferCoordinator::new`;
  - the host's lock handlers and its file operations (create and delete of files and directories, rename, truncate, setattr);
  - the FUSE `lookup`, `getattr`, `readdir`, `open` and `release` handlers, and WinFSP `open`, `get_file_info` and `read_directory`;
  - `format_update_message` and `get_download_url_for_current_platform` in `updater.rs`;
  - `to_ntstatus` in `winfsp.rs`.
- `ChunkCache::peek`, `contains`, `len` and `current_size` are not separate members. Each is a read of the `Cache.ChunkCache` fields through the `Lru` functions.
- `DirCache` is the same generic TTL cache as `AttrCache`, so one class, `Cache.TtlCache`, models both.
- The JSON encoding of the signalling messages is not modelled. `Messages` holds only their shape.
- Host.HandleListDir: the exact listing is stated only when the inode table has room for every entry (`Roomy`). Otherwise the contract gives only the bounds and the offset.
- Host.HandleListDir: `next_offset` is computed on unbounded integers; the source's u64 addition could wrap only past 2^64 entries.
- Compression.CompressionStats.Record requires a `Compressed` result's compressed size to be at most the original. The source's `original - compressed` would panic otherwise, and `compress_smart` never builds such a result.
- BufferPool.BufferPool.Release requires a buffer to be handed out. In the source only the drop of a `PooledBuffer` calls `release`, so this always holds.
- The `tar.gz`, `tar.xz` and similar entries of the extension list can never match, because only the text after the last dot is compared. `Compression.DottedEntriesNeverMatch` proves this, and the model keeps the list as written.
- The governor's sequential streak is a `nat`, not a saturating u32. The counters of `Compression`, `StreamPool`, `DedupIndex`, `BulkTransfer` and `RateLimiter` are unbounded naturals too, and so is the u32 `reconnect_attempts` of `ConnectionManager`; mount-name counters do not wrap.
- Share index 0 is never assigned, because its root would pack to the virtual root (`MultiFuse.VirtualRootOnlyShareZero`). The model keeps the source's choice to start at 1.
- MultiFuse.MultiShareFs.Write requires the write to end below 2^64. The source's u64 end offset would wrap otherwise.
- Winfsp.WinFs.Write: the same for the end offset.
- Winfsp.WinFs.Write does not drop the file's entry from the attribute cache (winfsp.rs:498), because the WinFSP front end's attribute cache is not part of the model.
- MultiFuse.MultiShareFs.Write does not drop the file's entry from the attribute cache (multi_fuse.rs:730), for the same reason.
- MultiFuse.MultiShareFs.Write keys the chunk cache and the dirty set by the packed inode: it follows the corrected behaviour of the Findings row for multi_fuse.rs:680-726, not the share-local keys of the source.
- MultiFuse.MultiShareFs.Read replies with the corrected stitched read (`Mount.ReadStitched`) keyed by the packed inode. It does not panic past a short chunk as multi_fuse.rs:312-320 does, and it does not alias shares as multi_fuse.rs:273-296 does; both are Findings rows.
- Winfsp.WinFs.Read replies with the corrected stitched read. It does not panic past a short chunk as winfsp.rs:196-200 does (Findings row).
- Fuse.WormholeFs.Read replies with the corrected stitched read. It does not panic past a short chunk as fuse.rs:155-164 does (Findings row).
- Mount.ChunkStore.ReadChunks computes the corrected stitched read, which the three front ends share; the as-written slice is `Mount.ReadStitchedAsWritten` (Findings rows for fuse.rs, winfsp.rs and multi_fuse.rs).
- Mount.FetchThenHit holds because `Mount.ChunkStore` keeps fetched chunks in an unbounded map. The front ends' `HybridChunkCache` (cache.rs:303-417) puts a bounded RAM LRU over a disk tier, and it can evict a chunk between two fetches; the model does not capture that eviction, so in the source a second fetch may go to the network again.
- Cache.ChunkCache.Insert follows the corrected insertion (`Cache.InsertChunk`), which subtracts the size of the chunk the LRU drops; the drifting counter of cache.rs:236-238 is the Findings row and `Cache.AsWrittenDrift`.
- DedupIndex.DedupIndex.Insert follows the corrected `DedupIndex.InsertStep`, which refreshes a re-inserted hash's queue entry; the duplicate queue entries of dedup_index.rs:115-128 are the Findings row and `DedupIndex.AsWrittenOverflows`.
- BulkTransfer.BulkTransferCoordinator.RegisterChunks inserts through the corrected dedup insert, so the index here never outgrows `max_entries`, while the source's can (Findings row for dedup_index.rs:115-128).
- StreamPool.StreamPool.WithConfig requires `min_streams <= max_streams`: `clamp` panics otherwise (stream_pool.rs:162).
- BulkTransfer.ReadLen assumes each `read` returns every byte asked for that the file still holds. Short reads, which the source tolerates by hashing `n` bytes, are not modelled.
- Governor.Diff models the release-build wrap of `chunk_id.index as i64 - state.last_chunk as i64`; a debug build panics on that overflow instead.
- RateLimiter.BlockLength is computed on unbounded integers. The source's `Duration * u32` would panic for a configured block duration above 2^64 / 64 seconds.
- Fuse.TimeOf adds seconds and nanoseconds on unbounded integers. `Duration::new` panics when the nanosecond carry overflows the seconds, and `UNIX_EPOCH + Duration` can overflow `SystemTime`; neither is modelled.
- Winfsp.AllocationSize and Winfsp.FileTime wrap modulo 2^64 as a release build does; a debug build panics on the overflow instead.
- The path refusals carry shortened texts: the source's "path too long" and "filename too long" messages also give the byte count and the limit.
- The multi-share `write` treats ENOENT from `fetch_chunk` as a chunk not yet written. `fetch_chunk` reports every failure as EIO, so that branch is dead; the model keeps it and proves it never fires (`MultiFuse.NothingMissing`).
- The WinFSP FILETIME conversion drops the nanoseconds below a second, as `winfsp.rs` does.
- `peer_rooms` keeps the entry of a peer whose room was removed by the idle sweep, as `server.rs` does.
- Crypto, DeepLink and Updater map case on ASCII letters only. Rust's Unicode case mapping is wider.
- The update check's cache-age test uses the u64 wrap of `now - last_check`, as a release build does. A cache file that cannot be read or decoded fails the whole check, as in the source.
- The icon script's files are not written and the progress messages are not printed. The bytes each file would hold are the result, and a side or compressed length of 2^32 or more, which makes `struct.pack` raise, stops the script.

## Findings

| source | as written | input that shows it | evidently intended | confidence | as-written member | corrected member |
|---|---|---|---|---|---|---|
| crates/teleport-daemon/src/fuse.rs:155-164 | the single-chunk read slices `chunk_data[start..start + to_read]` after clamping only the length, so an offset past the end of a short chunk slices out of range and panics | a 100-byte chunk, read at offset 200 with size 10 | a read past the end of the data returns no bytes, as the multi-chunk path does | not executed | Mount.ReadPastShortChunkPanics | Mount.ReadServedFile |
| crates/teleport-daemon/src/winfsp.rs:196-200 | `read_stitched` has the same single-chunk slice as fuse.rs: only the length is clamped, so an offset past the end of a short chunk slices out of range and panics | a 100-byte chunk, read at offset 200 with size 10 | a read past the end of the data returns no bytes | not executed | Mount.ReadPastShortChunkPanics | Winfsp.ReadFillsFromFile |
| crates/teleport-daemon/src/multi_fuse.rs:312-320 | the multi-share `read_stitched` has the same single-chunk slice as fuse.rs, with the same out-of-range panic | a 100-byte chunk, read at offset 200 with size 10 | a read past the end of the data returns no bytes | not executed | Mount.ReadPastShortChunkPanics | Mount.ReadServedFile |
| crates/teleport-daemon/src/multi_fuse.rs:273-296 | `fetch_chunk` looks up and stores chunks in the shared cache under the share-local `ChunkId`, so two shares with the same local inode and chunk index alias | shares 1 and 2 both holding ChunkId(5, 0) with different bytes: after share 1's read, share 2 reads share 1's bytes | cache keys are namespaced by share, so each share reads its own data | not executed | MultiFuse.SharesAliasAsWritten | MultiFuse.ReadsOwnShare |
| crates/teleport-daemon/src/multi_fuse.rs:680-726 | `write` reads, marks dirty and caches the patched chunk under the share-local `ChunkId(local_ino, idx)`, so a write through one share changes what another share with the same local inode reads | share 1 writes chunk 0 of its inode 5; share 2 then reads chunk 0 of its own inode 5 and gets share 1's bytes | the cache and the dirty set are keyed by share as well | not executed | MultiFuse.WriteAliasesAsWritten | MultiFuse.WritesApart |
| crates/teleport-daemon/src/cache.rs:236-238 | `LruCache::put` at entry capacity drops the least recently used chunk without subtracting its size from `current_bytes`, so the counter drifts above the resident bytes | `ChunkCache::new(ttl, 1024)`: `max_bytes` is 1024 and the entry capacity is `max(1024 / CHUNK_SIZE, 1)` = 1 (cache.rs:174-175); insert 512-byte chunks (1,0) and (2,0), then a 1024-byte chunk (3,0): the counter reads 1024 with 512 bytes resident, and (3,0) is refused though it fits | the counter always equals the resident bytes, so (3,0) is stored | not executed | Cache.AsWrittenDrift | Cache.CorrectedNoDrift |
| crates/teleport-daemon/src/dedup_index.rs:115-128 | re-inserting a hash already indexed pushes a second entry onto the LRU queue; later evictions pop stale entries, so the index outgrows `max_entries` | max_entries 2, insert a, a, b, c, d: the index ends with 3 entries | a re-insert refreshes the existing queue entry, so the index never exceeds `max_entries` | not executed | DedupIndex.AsWrittenOverflows | DedupIndex.InsertBounded |
