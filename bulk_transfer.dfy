/** The bulk transfer coordinator (crates/teleport-daemon/src/bulk_transfer.rs):
    splitting a file into content-addressed chunks, asking the dedup index
    which chunks are missing, registering received chunks, numbering
    transfers and tracking their progress. The file is given as its bytes
    and its length as reported by its metadata; BLAKE3 is a function
    parameter. */
module BulkTransfer {
  import opened Ints
  import opened Wrappers
  import opened Collections
  import opened Types
  import opened DedupIndex
  import Compression
  import BufferPool

  const U32_LIMIT: nat := 0x1_0000_0000

  /** Rust's `as u32` on a length. */
  function AsU32(n: nat): (r: u32)
    ensures n < U32_LIMIT ==> r == n
  {
    if n < U32_LIMIT then n else n % U32_LIMIT
  }

  datatype ContentChunk = ContentChunk(hash: ContentHash, offset: u64, size: u32)

  datatype FileManifest = FileManifest(inode: Inode, totalSize: u64, chunks: seq<ContentChunk>, fileHash: Option<ContentHash>)

  datatype BulkTransferConfig = BulkTransferConfig(chunkSize: nat, compressionEnabled: bool, compressionLevel: int, maxParallelChunks: nat)

  function DefaultConfig(): BulkTransferConfig {
    BulkTransferConfig(BufferPool.BULK_CHUNK_SIZE, true, 3, 16)
  }

  /** How many bytes one `read` of `want` bytes at `offset` returns: what
      is left of the file, up to `want`. */
  function ReadLen(data: seq<u8>, offset: nat, want: nat): (n: nat)
    ensures n <= want && (n == 0 || offset + n <= |data|)
    ensures n == 0 <==> want == 0 || offset >= |data|
  {
    if offset >= |data| then 0 else Min(want, |data| - offset)
  }

  /** The length of the read `build_manifest` issues at `offset`: up to
      `chunk_size` bytes, never past the metadata length, and what the
      file still holds. */
  function ChunkLen(data: seq<u8>, fileSize: u64, chunkSize: nat, offset: nat): (n: nat)
    requires offset <= fileSize
    ensures n <= chunkSize && offset + n <= fileSize
    ensures n > 0 ==> offset + n <= |data|
  {
    ReadLen(data, offset, Min(fileSize - offset, chunkSize))
  }

  /** The chunks `build_manifest` produces from `offset` on: it stops at a
      zero-length request or read, and otherwise hashes what was read and
      records it as a chunk (its length cast to `u32`). */
  function ChunksFrom(data: seq<u8>, fileSize: u64, chunkSize: nat, hash: seq<u8> -> ContentHash, offset: nat): (r: seq<ContentChunk>)
    requires offset <= fileSize
    decreases fileSize - offset
  {
    var n := ChunkLen(data, fileSize, chunkSize, offset);
    if n == 0 then []
    else [ContentChunk(hash(data[offset..offset + n]), offset, AsU32(n))] + ChunksFrom(data, fileSize, chunkSize, hash, offset + n)
  }

  /** One step of `ChunksFrom`. */
  lemma ChunksUnfold(data: seq<u8>, fileSize: u64, chunkSize: nat, hash: seq<u8> -> ContentHash, offset: nat)
    requires offset <= fileSize && ChunkLen(data, fileSize, chunkSize, offset) > 0
    ensures var n := ChunkLen(data, fileSize, chunkSize, offset);
      ChunksFrom(data, fileSize, chunkSize, hash, offset)
        == [ContentChunk(hash(data[offset..offset + n]), offset, AsU32(n))] + ChunksFrom(data, fileSize, chunkSize, hash, offset + n)
  {
  }

  /** A chunk of 1 to `chunk_size` bytes within the file, carrying the
      hash of exactly those bytes. */
  ghost predicate ChunkOk(c: ContentChunk, data: seq<u8>, fileSize: u64, chunkSize: nat, hash: seq<u8> -> ContentHash) {
    && 1 <= c.size <= chunkSize && c.offset + c.size <= fileSize && c.offset + c.size <= |data|
    && c.hash == hash(data[c.offset..c.offset + c.size])
  }

  /** Every chunk `build_manifest` records is well formed. */
  lemma {:induction false} ChunksWellFormed(data: seq<u8>, fileSize: u64, chunkSize: nat, hash: seq<u8> -> ContentHash, offset: nat)
    requires offset <= fileSize && chunkSize < U32_LIMIT
    ensures forall c :: c in ChunksFrom(data, fileSize, chunkSize, hash, offset) ==> ChunkOk(c, data, fileSize, chunkSize, hash)
    decreases fileSize - offset
  {
    var n := ChunkLen(data, fileSize, chunkSize, offset);
    if n > 0 {
      ChunksWellFormed(data, fileSize, chunkSize, hash, offset + n);
      ChunksUnfold(data, fileSize, chunkSize, hash, offset);
    }
  }

  /** Each chunk starts where the one before it ends, the first at
      `offset`. */
  lemma {:induction false} ChunksContiguous(data: seq<u8>, fileSize: u64, chunkSize: nat, hash: seq<u8> -> ContentHash, offset: nat)
    requires offset <= fileSize && chunkSize < U32_LIMIT
    ensures var r := ChunksFrom(data, fileSize, chunkSize, hash, offset);
      && (r != [] ==> r[0].offset == offset)
      && forall i :: 0 <= i < |r| - 1 ==> r[i + 1].offset == r[i].offset + r[i].size
    decreases fileSize - offset
  {
    var n := ChunkLen(data, fileSize, chunkSize, offset);
    if n > 0 {
      ChunksContiguous(data, fileSize, chunkSize, hash, offset + n);
      var rest := ChunksFrom(data, fileSize, chunkSize, hash, offset + n);
      var r := ChunksFrom(data, fileSize, chunkSize, hash, offset);
      assert forall i :: 1 <= i < |r| ==> r[i] == rest[i - 1];
    }
  }

  function SizeSum(chunks: seq<ContentChunk>): nat {
    if chunks == [] then 0 else chunks[0].size + SizeSum(chunks[1..])
  }

  /** When the file holds at least the bytes its metadata announces, the
      chunks from `offset` cover the rest of it exactly. */
  lemma {:induction false} ChunksCover(data: seq<u8>, fileSize: u64, chunkSize: nat, hash: seq<u8> -> ContentHash, offset: nat)
    requires offset <= fileSize <= |data| && 0 < chunkSize < U32_LIMIT
    ensures SizeSum(ChunksFrom(data, fileSize, chunkSize, hash, offset)) == fileSize - offset
    decreases fileSize - offset
  {
    var n := ChunkLen(data, fileSize, chunkSize, offset);
    if n > 0 {
      ChunksCover(data, fileSize, chunkSize, hash, offset + n);
      ChunksUnfold(data, fileSize, chunkSize, hash, offset);
    }
  }

  /** `build_manifest`'s read loop. */
  method BuildManifest(data: seq<u8>, fileSize: u64, inode: Inode, config: BulkTransferConfig, hash: seq<u8> -> ContentHash)
    returns (m: FileManifest)
    ensures m.inode == inode && m.totalSize == fileSize && m.fileHash == None
    ensures m.chunks == ChunksFrom(data, fileSize, config.chunkSize, hash, 0)
  {
    var chunks: seq<ContentChunk> := [];
    var offset: nat := 0;
    ghost var all := ChunksFrom(data, fileSize, config.chunkSize, hash, offset);
    while true
      invariant offset <= fileSize
      invariant Splits(chunks, ChunksFrom(data, fileSize, config.chunkSize, hash, offset), all)
      decreases fileSize - offset
    {
      var bytesToRead := Min(fileSize - offset, config.chunkSize);
      if bytesToRead == 0 {
        break;
      }
      var n := ReadLen(data, offset, bytesToRead);
      if n == 0 {
        break;
      }
      var chunk := ContentChunk(hash(data[offset..offset + n]), offset, AsU32(n));
      ManifestStep(chunks, chunk, data, fileSize, config.chunkSize, hash, offset, n, all);
      chunks := chunks + [chunk];
      offset := offset + n;
    }
    assert ChunksFrom(data, fileSize, config.chunkSize, hash, offset) == [];
    assert chunks + [] == chunks;
    m := FileManifest(inode, fileSize, chunks, None);
  }

  /** `all` is `done` followed by `rest`. */
  ghost predicate Splits<T>(done: seq<T>, rest: seq<T>, all: seq<T>) {
    done + rest == all
  }

  /** The read loop's invariant, carried across one chunk. */
  lemma ManifestStep(chunks: seq<ContentChunk>, chunk: ContentChunk, data: seq<u8>, fileSize: u64, chunkSize: nat, hash: seq<u8> -> ContentHash, offset: nat, n: nat, all: seq<ContentChunk>)
    requires offset <= fileSize && n == ReadLen(data, offset, Min(fileSize - offset, chunkSize)) && n > 0
    requires chunk == ContentChunk(hash(data[offset..offset + n]), offset, AsU32(n))
    requires Splits(chunks, ChunksFrom(data, fileSize, chunkSize, hash, offset), all)
    ensures offset + n <= fileSize
    ensures Splits(chunks + [chunk], ChunksFrom(data, fileSize, chunkSize, hash, offset + n), all)
  {
    ChunksUnfold(data, fileSize, chunkSize, hash, offset);
  }

  /** The manifest of a fully readable file: chunks of 1 to `chunk_size`
      bytes, starting at 0, each directly after the last, hashed over its
      own bytes and together exactly as long as the file. */
  lemma ManifestCoversFile(data: seq<u8>, chunkSize: nat, hash: seq<u8> -> ContentHash)
    requires 0 < chunkSize < U32_LIMIT && |data| < 0x1_0000_0000_0000_0000
    ensures var r := ChunksFrom(data, |data|, chunkSize, hash, 0);
      && (r != [] ==> r[0].offset == 0)
      && (forall i :: 0 <= i < |r| - 1 ==> r[i + 1].offset == r[i].offset + r[i].size)
      && (forall c :: c in r ==> ChunkOk(c, data, |data|, chunkSize, hash))
      && SizeSum(r) == |data|
  {
    ChunksWellFormed(data, |data|, chunkSize, hash, 0);
    ChunksContiguous(data, |data|, chunkSize, hash, 0);
    ChunksCover(data, |data|, chunkSize, hash, 0);
  }

  /** With a zero chunk size the manifest has no chunks at all. */
  lemma ZeroChunkSizeEmpty(data: seq<u8>, fileSize: u64, hash: seq<u8> -> ContentHash)
    ensures ChunksFrom(data, fileSize, 0, hash, 0) == []
  {
  }

  function Hashes(chunks: seq<ContentChunk>): (r: seq<ContentHash>)
    ensures |r| == |chunks| && forall i :: 0 <= i < |r| ==> r[i] == chunks[i].hash
  {
    seq(|chunks|, i requires 0 <= i < |chunks| => chunks[i].hash)
  }

  /** `find_missing_chunks`: the manifest's hashes the index lacks, in
      manifest order. */
  function FindMissingChunks(dedup: DedupIndex, m: FileManifest): (r: seq<ContentHash>)
    reads dedup
    ensures forall h :: h in r <==> h in Hashes(m.chunks) && !dedup.Contains(h)
    ensures forall i :: 0 <= i < |m.chunks| && !dedup.Contains(m.chunks[i].hash) ==> m.chunks[i].hash in r
  {
    dedup.FindMissing(Hashes(m.chunks))
  }

  /** The bytes of the chunks still to fetch (the sum behind
      `estimate_transfer_time`). */
  function MissingBytes(chunks: seq<ContentChunk>, missing: seq<ContentHash>): (n: nat)
    ensures n <= SizeSum(chunks)
    ensures (forall i :: 0 <= i < |chunks| ==> chunks[i].hash !in missing) ==> n == 0
  {
    if chunks == [] then 0
    else (if chunks[0].hash in missing then chunks[0].size else 0) + MissingBytes(chunks[1..], missing)
  }

  /** The index state after inserting the chunks one after another. */
  function InsertAll(index: Index, lru: seq<ContentHash>, maxEntries: nat, path: string, chunks: seq<ContentChunk>): (Index, seq<ContentHash>)
  {
    if chunks == [] then (index, lru)
    else
      var p := InsertAll(index, lru, maxEntries, path, chunks[..|chunks| - 1]);
      var c := chunks[|chunks| - 1];
      InsertStep(p.0, p.1, maxEntries, c.hash, ChunkLocation(path, c.offset, c.size))
  }

  /** Registering a whole manifest keeps the queue exact and the index
      within its capacity. */
  lemma {:induction false} InsertAllKeepsExact(index: Index, lru: seq<ContentHash>, maxEntries: nat, path: string, chunks: seq<ContentChunk>)
    requires Exact(index, lru) && |index| <= Max(maxEntries, 1)
    ensures var r := InsertAll(index, lru, maxEntries, path, chunks);
      Exact(r.0, r.1) && |r.0| <= Max(maxEntries, 1)
  {
    if chunks != [] {
      InsertAllKeepsExact(index, lru, maxEntries, path, chunks[..|chunks| - 1]);
      var p := InsertAll(index, lru, maxEntries, path, chunks[..|chunks| - 1]);
      var c := chunks[|chunks| - 1];
      InsertKeepsExact(p.0, p.1, maxEntries, c.hash, ChunkLocation(path, c.offset, c.size));
      InsertBounded(p.0, p.1, maxEntries, c.hash, ChunkLocation(path, c.offset, c.size));
    }
  }

  /** When the index has room for all of them, every registered chunk is
      in it afterwards, and nothing that was there is evicted. */
  lemma {:induction false} InsertAllWithRoom(index: Index, lru: seq<ContentHash>, maxEntries: nat, path: string, chunks: seq<ContentChunk>)
    requires |index| + |chunks| <= maxEntries
    ensures var r := InsertAll(index, lru, maxEntries, path, chunks);
      (forall c :: c in chunks ==> c.hash in r.0) && index.Keys <= r.0.Keys
  {
    if chunks != [] {
      var init := chunks[..|chunks| - 1];
      InsertAllWithRoom(index, lru, maxEntries, path, init);
      InsertAllGrowth(index, lru, maxEntries, path, init);
      var p := InsertAll(index, lru, maxEntries, path, init);
      var c := chunks[|chunks| - 1];
      InsertBelowCapacity(p.0, p.1, maxEntries, c.hash, ChunkLocation(path, c.offset, c.size));
      InitLast(chunks);
    }
  }

  /** Each insert adds at most one entry. */
  lemma {:induction false} InsertAllGrowth(index: Index, lru: seq<ContentHash>, maxEntries: nat, path: string, chunks: seq<ContentChunk>)
    ensures |InsertAll(index, lru, maxEntries, path, chunks).0| <= |index| + |chunks|
  {
    if chunks != [] {
      var init := chunks[..|chunks| - 1];
      InsertAllGrowth(index, lru, maxEntries, path, init);
      var p := InsertAll(index, lru, maxEntries, path, init);
      var c := chunks[|chunks| - 1];
      InsertGrowsByOne(p.0, p.1, maxEntries, c.hash, ChunkLocation(path, c.offset, c.size));
    }
  }

  /** Registering never adds anything but the manifest's hashes, and the
      last chunk is always found afterwards at its recorded place. */
  lemma {:induction false} InsertAllOnlyChunks(index: Index, lru: seq<ContentHash>, maxEntries: nat, path: string, chunks: seq<ContentChunk>)
    ensures var r := InsertAll(index, lru, maxEntries, path, chunks);
      forall h :: h in r.0 ==> h in index || h in Hashes(chunks)
    ensures var r := InsertAll(index, lru, maxEntries, path, chunks);
      chunks != [] ==> var c := chunks[|chunks| - 1]; c.hash in r.0 && r.0[c.hash] == ChunkLocation(path, c.offset, c.size)
  {
    if chunks != [] {
      var init := chunks[..|chunks| - 1];
      InsertAllOnlyChunks(index, lru, maxEntries, path, init);
      assert forall h :: h in Hashes(init) ==> h in Hashes(chunks);
    }
  }

  /** A transfer's progress counters. */
  class TransferProgressTracker {
    const transferId: nat
    const totalBytes: nat
    const totalChunks: u32
    var bytesDone: nat
    var chunksDone: nat
    var dedupSavings: nat
    var compressionSavings: nat

    constructor (transferId: nat, totalBytes: nat, totalChunks: u32)
      ensures this.transferId == transferId && this.totalBytes == totalBytes && this.totalChunks == totalChunks
      ensures bytesDone == 0 && chunksDone == 0 && dedupSavings == 0 && compressionSavings == 0
    {
      this.transferId, this.totalBytes, this.totalChunks := transferId, totalBytes, totalChunks;
      bytesDone, chunksDone, dedupSavings, compressionSavings := 0, 0, 0, 0;
    }

    method AddBytes(bytes: nat)
      modifies this
      ensures bytesDone == old(bytesDone) + bytes
      ensures chunksDone == old(chunksDone) && dedupSavings == old(dedupSavings) && compressionSavings == old(compressionSavings)
    {
      bytesDone := bytesDone + bytes;
    }

    method AddChunk()
      modifies this
      ensures chunksDone == AddChunkStep(old(chunksDone))
      ensures bytesDone == old(bytesDone) && dedupSavings == old(dedupSavings) && compressionSavings == old(compressionSavings)
    {
      chunksDone := chunksDone + 1;
    }

    method AddDedupSavings(bytes: nat)
      modifies this
      ensures dedupSavings == old(dedupSavings) + bytes
      ensures bytesDone == old(bytesDone) && chunksDone == old(chunksDone) && compressionSavings == old(compressionSavings)
    {
      dedupSavings := dedupSavings + bytes;
    }

    method AddCompressionSavings(bytes: nat)
      modifies this
      ensures compressionSavings == old(compressionSavings) + bytes
      ensures bytesDone == old(bytesDone) && chunksDone == old(chunksDone) && dedupSavings == old(dedupSavings)
    {
      compressionSavings := compressionSavings + bytes;
    }

    /** The bytes left, saturating at zero (`remaining_bytes` in `progress`). */
    function RemainingBytes(): (r: nat)
      reads this
      ensures bytesDone <= totalBytes ==> r + bytesDone == totalBytes
      ensures bytesDone > totalBytes ==> r == 0
    {
      SatSub(totalBytes, bytesDone)
    }

    /** `progress().chunks_done`: the counter cast to `u32`. */
    function ReportedChunks(): (r: u32)
      reads this
      ensures chunksDone < U32_LIMIT ==> r == chunksDone
    {
      AsU32(chunksDone)
    }

    /** `is_complete`, compared on the full 64-bit counter. */
    predicate IsComplete()
      reads this
    {
      chunksDone >= totalChunks
    }
  }

  /** The chunk counter after one `add_chunk`. */
  function AddChunkStep(done: nat): nat {
    done + 1
  }

  /** The chunk counter after `k` calls of `add_chunk`, starting from `done`. */
  function ChunksAfter(done: nat, k: nat): nat {
    if k == 0 then done else AddChunkStep(ChunksAfter(done, k - 1))
  }

  /** Each call counts exactly one chunk. */
  lemma {:induction false} ChunksAfterCount(done: nat, k: nat)
    ensures ChunksAfter(done, k) == done + k
  {
    if k > 0 {
      ChunksAfterCount(done, k - 1);
    }
  }

  /** A tracker that was created fresh (counter 0) and then saw `k` calls of
      `add_chunk` is complete exactly when `k` reached the manifest's chunk
      count: one call per chunk completes the transfer, and not before. */
  lemma CompleteAfterAllChunks(t: TransferProgressTracker, k: nat)
    requires t.chunksDone == ChunksAfter(0, k)
    ensures t.IsComplete() <==> k >= t.totalChunks
  {
    ChunksAfterCount(0, k);
  }

  class BulkTransferCoordinator {
    const dedupIndex: DedupIndex
    const config: BulkTransferConfig
    const compressor: Compression.SmartCompressor
    var nextTransferId: nat
    /** The ids handed out so far. */
    ghost var issued: seq<nat>

    /** Ids are handed out as 1, 2, 3, ... */
    ghost predicate Valid()
      reads this
    {
      nextTransferId == |issued| + 1 && forall i :: 0 <= i < |issued| ==> issued[i] == i + 1
    }

    /** `with_config`; `new` is this with the default configuration. */
    constructor WithConfig(dedupIndex: DedupIndex, config: BulkTransferConfig)
      ensures Valid() && issued == [] && nextTransferId == 1
      ensures this.dedupIndex == dedupIndex && this.config == config
      ensures compressor == Compression.WithLevel(config.compressionLevel)
    {
      this.dedupIndex := dedupIndex;
      this.config := config;
      compressor := Compression.WithLevel(config.compressionLevel);
      nextTransferId := 1;
      issued := [];
    }

    /** `next_transfer_id`: the first id is 1 and each one is larger than
        every id before it. */
    method NextTransferId() returns (id: nat)
      requires Valid()
      modifies this
      ensures Valid() && issued == old(issued) + [id]
      ensures id >= 1 && forall i :: 0 <= i < |old(issued)| ==> old(issued)[i] < id
    {
      id := nextTransferId;
      nextTransferId := nextTransferId + 1;
      issued := issued + [id];
    }

    /** `compress_chunk`: the smart compressor when compression is on,
        otherwise the chunk is skipped. */
    function CompressChunk(lowEntropy: seq<u8> -> bool, zstd: (seq<u8>, int) -> Result<seq<u8>, string>, path: string, data: seq<u8>): (r: Compression.CompressionResult)
      ensures r.originalSize == |data| && Compression.WellFormed(r)
      ensures !config.compressionEnabled ==> r == Compression.Skipped(|data|)
      ensures r.Compressed? ==> config.compressionEnabled && zstd(data, compressor.level) == Ok(r.data)
    {
      if config.compressionEnabled then Compression.CompressSmart(compressor, lowEntropy, zstd, path, data)
      else Compression.Skipped(|data|)
    }

    /** `register_chunks`: every chunk of the manifest is inserted in turn,
        located at the given path. */
    method RegisterChunks(m: FileManifest, basePath: string)
      requires dedupIndex.Valid()
      modifies dedupIndex
      ensures dedupIndex.Valid()
      ensures (dedupIndex.index, dedupIndex.lruOrder) == InsertAll(old(dedupIndex.index), old(dedupIndex.lruOrder), dedupIndex.maxEntries, basePath, m.chunks)
      ensures dedupIndex.insertions == old(dedupIndex.insertions) + |m.chunks|
    {
      var i := 0;
      while i < |m.chunks|
        invariant i <= |m.chunks| && dedupIndex.Valid()
        invariant (dedupIndex.index, dedupIndex.lruOrder) == InsertAll(old(dedupIndex.index), old(dedupIndex.lruOrder), dedupIndex.maxEntries, basePath, m.chunks[..i])
        invariant dedupIndex.insertions == old(dedupIndex.insertions) + i
      {
        var c := m.chunks[i];
        assert m.chunks[..i + 1][..i] == m.chunks[..i];
        dedupIndex.Insert(c.hash, basePath, c.offset, c.size);
        i := i + 1;
      }
      assert m.chunks[..i] == m.chunks;
    }

    /** `create_progress`: a tracker sized after the manifest. */
    method CreateProgress(transferId: nat, m: FileManifest) returns (t: TransferProgressTracker)
      ensures fresh(t) && t.transferId == transferId && t.totalBytes == m.totalSize
      ensures t.totalChunks == AsU32(|m.chunks|) && t.bytesDone == 0 && t.chunksDone == 0
    {
      t := new TransferProgressTracker(transferId, m.totalSize, AsU32(|m.chunks|));
    }
  }
}
