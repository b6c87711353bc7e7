/** What the three mount front ends (crates/teleport-daemon/src/fuse.rs,
    multi_fuse.rs and winfsp.rs) have in common: the bridge's error type,
    reading a byte range stitched out of fixed-size chunks, splitting a write
    across chunks, and the chunk cache with its dirty set that both paths go
    through. Each front end carries its own copy of this logic in the source;
    the copies agree line for line except where the front-end modules say. */
module Mount {
  import opened Ints
  import opened Wrappers
  import opened Types
  import Errors

  /** `FuseError` of the async bridge (crates/teleport-daemon/src/bridge.rs). */
  datatype FuseError =
    | NotFound
    | PermissionDenied
    | IoError(message: string)
    | Timeout
    | Shutdown
    | Internal(message: string)

  /** Linux's ESHUTDOWN, which the error codes of the wire do not use. */
  const ESHUTDOWN: int := 108

  /** `FuseError::to_errno`: each error to the errno FUSE replies with. Only a
      missing entry becomes ENOENT, and both message-carrying errors become EIO. */
  function ToErrno(e: FuseError): (r: int)
    ensures r == Errors.ENOENT <==> e.NotFound?
    ensures r == Errors.EIO <==> e.IoError? || e.Internal?
    ensures r in {Errors.ENOENT, Errors.EACCES, Errors.EIO, Errors.ETIMEDOUT, ESHUTDOWN}
  {
    match e
    case NotFound => Errors.ENOENT
    case PermissionDenied => Errors.EACCES
    case IoError(_) => Errors.EIO
    case Timeout => Errors.ETIMEDOUT
    case Shutdown => ESHUTDOWN
    case Internal(_) => Errors.EIO
  }

  /** The cache key of chunk `i` of inode `ino`. */
  function Key(ino: Inode, i: nat): (k: ChunkId)
    requires i < TWO_64
    ensures k.inode == ino && k.index == i
  {
    ChunkId(ino, i)
  }

  // ---------------------------------------------------------------------
  // Reads

  /** The chunk holding the first byte of a read at `offset`. */
  function StartChunk(offset: nat): nat
  {
    offset / CHUNK_SIZE
  }

  /** `end_offset.saturating_sub(1) / chunk_size`: the chunk holding the last
      byte of a read of `size` bytes at `offset`. */
  function EndChunk(offset: nat, size: nat): nat
  {
    SatSub(offset + size, 1) / CHUNK_SIZE
  }

  /** How many chunk indices `start_chunk..=end_chunk` holds. */
  function Visited(offset: nat, size: nat): (n: nat)
    ensures size > 0 ==> n >= 1
  {
    if EndChunk(offset, size) >= StartChunk(offset)
    then EndChunk(offset, size) - StartChunk(offset) + 1
    else 0
  }

  /** The multi-chunk loop of `read_stitched`. `chunks[j]` is what fetching
      the j-th visited chunk yields; `cur` is the file position reached and
      `remaining` the bytes still wanted. Each chunk contributes the bytes from
      `cur % CHUNK_SIZE` on, at most `remaining` of them; the loop stops at the
      first chunk with nothing at that position, and a failed fetch fails the
      whole read. */
  function Stitch<E>(chunks: seq<Result<seq<u8>, E>>, cur: nat, remaining: nat): (r: Result<seq<u8>, E>)
    ensures r.Ok? ==> |r.value| <= remaining
    decreases |chunks|
  {
    if remaining == 0 || |chunks| == 0 then Ok([])
    else match chunks[0]
      case Err(e) => Err(e)
      case Ok(data) =>
        var s := cur % CHUNK_SIZE;
        var n := Min(remaining, SatSub(|data|, s));
        if n == 0 then Ok([])
        else match Stitch(chunks[1..], cur + n, remaining - n)
          case Err(e) => Err(e)
          case Ok(rest) => Ok(data[s .. s + n] + rest)
  }

  /** `bytes + r` when `r` succeeded. */
  function Prepend<E>(bytes: seq<u8>, r: Result<seq<u8>, E>): Result<seq<u8>, E>
  {
    match r
    case Ok(rest) => Ok(bytes + rest)
    case Err(e) => Err(e)
  }

  /** The outcome of `read_stitched` as written: a slice whose start lies past
      the end of the chunk makes Rust panic. */
  datatype ReadOutcome<E> = Read(bytes: seq<u8>) | ReadError(error: E) | Panicked

  /** `read_stitched` as the three front ends write it: a read that starts and
      ends in one chunk returns `chunk[s .. s + min(size, len - s)]` with a
      saturating `len - s`, which panics when `s` exceeds the chunk's length;
      any other read runs the stitching loop. */
  function ReadStitchedAsWritten<E>(chunks: seq<Result<seq<u8>, E>>, offset: nat, size: nat): (r: ReadOutcome<E>)
    requires |chunks| == Visited(offset, size)
    ensures r.Panicked? <==>
      StartChunk(offset) == EndChunk(offset, size) && chunks[0].Ok? && offset % CHUNK_SIZE > |chunks[0].value|
    ensures !r.Panicked? ==>
      r == match ReadStitched(chunks, offset, size) case Ok(bytes) => Read(bytes) case Err(e) => ReadError(e)
  {
    if StartChunk(offset) == EndChunk(offset, size) then
      match chunks[0]
      case Err(e) => ReadError(e)
      case Ok(data) =>
        var s := offset % CHUNK_SIZE;
        if s > |data| then Panicked
        else Read(data[s .. s + Min(size, SatSub(|data|, s))])
    else
      match Stitch(chunks, offset, size)
      case Ok(bytes) => Read(bytes)
      case Err(e) => ReadError(e)
  }

  /** `read_stitched` with the single-chunk branch clamped to the chunk, so
      that a start past its end yields no bytes, as the stitching loop does. */
  function ReadStitched<E>(chunks: seq<Result<seq<u8>, E>>, offset: nat, size: nat): (r: Result<seq<u8>, E>)
    requires |chunks| == Visited(offset, size)
    ensures r.Ok? ==> |r.value| <= size
  {
    if StartChunk(offset) == EndChunk(offset, size) then
      match chunks[0]
      case Err(e) => Err(e)
      case Ok(data) =>
        var s := Min(offset % CHUNK_SIZE, |data|);
        Ok(data[s .. s + Min(size, |data| - s)])
    else Stitch(chunks, offset, size)
  }

  /** A 100-byte final chunk read at offset 200: the as-written single-chunk
      branch slices `chunk[200..200]` and panics, while the stitching rule
      returns no bytes. */
  lemma ReadPastShortChunkPanics<E>()
    ensures ReadStitchedAsWritten<E>([Ok(seq(100, _ => 7))], 200, 10) == Panicked
    ensures ReadStitched<E>([Ok(seq(100, _ => 7))], 200, 10) == Ok([])
  {
    assert EndChunk(200, 10) == 0;
  }

  /** Chunk arithmetic: a position lies in the chunk its quotient names. */
  lemma InChunk(x: nat, i: nat)
    requires i * CHUNK_SIZE <= x < (i + 1) * CHUNK_SIZE
    ensures x / CHUNK_SIZE == i && x % CHUNK_SIZE == x - i * CHUNK_SIZE
  {
  }

  /** Bytes [i * CHUNK_SIZE, (i + 1) * CHUNK_SIZE) of a file, clipped to its end:
      what the remote serves as chunk `i`. */
  function ChunkOf(file: seq<u8>, i: nat): (c: seq<u8>)
    ensures |c| <= CHUNK_SIZE
  {
    file[Min(i * CHUNK_SIZE, |file|) .. Min((i + 1) * CHUNK_SIZE, |file|)]
  }

  /** The `count` chunks of a file from chunk `first` on, all served. */
  function FileChunks<E>(file: seq<u8>, first: nat, count: nat): (r: seq<Result<seq<u8>, E>>)
    ensures |r| == count
  {
    seq(count, j requires 0 <= j < count => Ok(ChunkOf(file, first + j)))
  }

  /** The bytes at [offset, offset + size) of a file, clipped to its end. */
  function Slice(file: seq<u8>, offset: nat, size: nat): (r: seq<u8>)
    ensures |r| <= size
  {
    file[Min(offset, |file|) .. Min(offset + size, |file|)]
  }

  /** One step of the stitching loop that takes `n > 0` bytes from the first chunk. */
  lemma StitchHead<E>(chunks: seq<Result<seq<u8>, E>>, cur: nat, remaining: nat)
    requires |chunks| > 0 && chunks[0].Ok? && remaining > 0
    requires Min(remaining, SatSub(|chunks[0].value|, cur % CHUNK_SIZE)) > 0
    ensures var s := cur % CHUNK_SIZE;
      var n := Min(remaining, SatSub(|chunks[0].value|, s));
      Stitch(chunks, cur, remaining) == Prepend(chunks[0].value[s .. s + n], Stitch(chunks[1..], cur + n, remaining - n))
  {
  }

  /** Stitching stops at a chunk with no bytes at the current position. */
  lemma StitchStops<E>(chunks: seq<Result<seq<u8>, E>>, cur: nat, remaining: nat)
    requires |chunks| > 0 ==> chunks[0].Ok? && |chunks[0].value| <= cur % CHUNK_SIZE
    ensures Stitch(chunks, cur, remaining) == Ok([])
  {
  }

  /** How many bytes chunk `i` of a file holds from position `cur` inside it on. */
  lemma ChunkOfAvail(file: seq<u8>, i: nat, cur: nat)
    requires i * CHUNK_SIZE <= cur < (i + 1) * CHUNK_SIZE
    ensures SatSub(|ChunkOf(file, i)|, cur % CHUNK_SIZE) == SatSub(Min((i + 1) * CHUNK_SIZE, |file|), cur)
  {
    InChunk(cur, i);
  }

  /** The first `n` bytes of chunk `i` of a file from position `cur` on are the file's bytes there. */
  lemma ChunkOfBytes(file: seq<u8>, i: nat, cur: nat, n: nat)
    requires i * CHUNK_SIZE <= cur < (i + 1) * CHUNK_SIZE
    requires cur + n <= Min((i + 1) * CHUNK_SIZE, |file|)
    ensures cur % CHUNK_SIZE + n <= |ChunkOf(file, i)|
    ensures ChunkOf(file, i)[cur % CHUNK_SIZE .. cur % CHUNK_SIZE + n] == file[cur .. cur + n]
  {
    InChunk(cur, i);
  }

  /** The first step of stitching the chunks of a file from inside chunk `i`:
      the bytes of the file up to the end of that chunk or of the file. */
  lemma StitchFileHead<E>(file: seq<u8>, i: nat, count: nat, cur: nat, remaining: nat)
    requires i * CHUNK_SIZE <= cur < (i + 1) * CHUNK_SIZE && count > 0
    requires Min(remaining, SatSub(Min((i + 1) * CHUNK_SIZE, |file|), cur)) > 0
    ensures var n := Min(remaining, SatSub(Min((i + 1) * CHUNK_SIZE, |file|), cur));
      Stitch(FileChunks<E>(file, i, count), cur, remaining)
        == Prepend(file[cur .. cur + n], Stitch(FileChunks<E>(file, i + 1, count - 1), cur + n, remaining - n))
  {
    var chunks := FileChunks<E>(file, i, count);
    var n := Min(remaining, SatSub(Min((i + 1) * CHUNK_SIZE, |file|), cur));
    ChunkOfAvail(file, i, cur);
    ChunkOfBytes(file, i, cur, n);
    StitchHead(chunks, cur, remaining);
    assert chunks[1..] == FileChunks<E>(file, i + 1, count - 1);
  }

  /** Stitching the chunks of a file from a position with no bytes left in
      its chunk yields nothing. */
  lemma StitchFileStops<E>(file: seq<u8>, i: nat, count: nat, cur: nat, remaining: nat)
    requires i * CHUNK_SIZE <= cur < (i + 1) * CHUNK_SIZE
    requires Min(remaining, SatSub(Min((i + 1) * CHUNK_SIZE, |file|), cur)) == 0
    ensures Stitch(FileChunks<E>(file, i, count), cur, remaining) == Ok([])
    ensures Slice(file, cur, remaining) == []
  {
    if remaining > 0 && count > 0 {
      ChunkOfAvail(file, i, cur);
      StitchStops(FileChunks<E>(file, i, count), cur, remaining);
    }
  }

  /** Nothing is stitched once the wanted bytes are all taken or the chunks
      lie past the end of the file. */
  lemma StitchPastEnd<E>(file: seq<u8>, i: nat, count: nat, cur: nat, remaining: nat)
    requires remaining == 0 || |file| <= i * CHUNK_SIZE
    ensures Stitch(FileChunks<E>(file, i, count), cur, remaining) == Ok([])
  {
    if remaining > 0 && count > 0 {
      assert FileChunks<E>(file, i, count)[0] == Ok(ChunkOf(file, i));
      StitchStops(FileChunks<E>(file, i, count), cur, remaining);
    }
  }

  /** Stitching the chunks of a file when the bytes wanted, or the file,
      end inside chunk `i`. */
  lemma StitchFileLast<E>(file: seq<u8>, i: nat, count: nat, cur: nat, remaining: nat)
    requires i * CHUNK_SIZE <= cur < (i + 1) * CHUNK_SIZE && count > 0
    requires var n := Min(remaining, SatSub(Min((i + 1) * CHUNK_SIZE, |file|), cur));
      n > 0 && (n == remaining || |file| <= (i + 1) * CHUNK_SIZE)
    ensures Stitch(FileChunks<E>(file, i, count), cur, remaining) == Ok(Slice(file, cur, remaining))
  {
    var n := Min(remaining, SatSub(Min((i + 1) * CHUNK_SIZE, |file|), cur));
    StitchFileHead<E>(file, i, count, cur, remaining);
    StitchPastEnd<E>(file, i + 1, count - 1, cur + n, remaining - n);
    assert Slice(file, cur, remaining) == file[cur .. cur + n] + [];
  }

  /** Stitching the chunks of a file from inside chunk `i` yields exactly the
      wanted bytes of the file, ending early at its end. */
  lemma {:induction false} StitchFile<E>(file: seq<u8>, i: nat, count: nat, cur: nat, remaining: nat)
    requires i * CHUNK_SIZE <= cur < (i + 1) * CHUNK_SIZE
    requires cur + remaining <= (i + count) * CHUNK_SIZE
    ensures Stitch(FileChunks<E>(file, i, count), cur, remaining) == Ok(Slice(file, cur, remaining))
    decreases count
  {
    var n := Min(remaining, SatSub(Min((i + 1) * CHUNK_SIZE, |file|), cur));
    if n == 0 {
      StitchFileStops<E>(file, i, count, cur, remaining);
    } else {
      if n == remaining || |file| <= (i + 1) * CHUNK_SIZE {
        StitchFileLast<E>(file, i, count, cur, remaining);
      } else {
        MidChunk(file, i, cur, remaining);
        StitchFile<E>(file, i + 1, count - 1, cur + n, remaining - n);
        StitchFileStep<E>(file, i, count, cur, remaining);
      }
    }
  }

  /** A read that goes on past chunk `i` takes the rest of that chunk. */
  lemma MidChunk(file: seq<u8>, i: nat, cur: nat, remaining: nat)
    requires i * CHUNK_SIZE <= cur < (i + 1) * CHUNK_SIZE
    requires var n := Min(remaining, SatSub(Min((i + 1) * CHUNK_SIZE, |file|), cur));
      n > 0 && n != remaining && |file| > (i + 1) * CHUNK_SIZE
    ensures var n := Min(remaining, SatSub(Min((i + 1) * CHUNK_SIZE, |file|), cur));
      cur + n == (i + 1) * CHUNK_SIZE && n < remaining
  {
  }

  /** The stitching step across a chunk boundary, given the rest of the read. */
  lemma StitchFileStep<E>(file: seq<u8>, i: nat, count: nat, cur: nat, remaining: nat)
    requires i * CHUNK_SIZE <= cur < (i + 1) * CHUNK_SIZE && count > 0
    requires var n := Min(remaining, SatSub(Min((i + 1) * CHUNK_SIZE, |file|), cur));
      n > 0 && cur + n == (i + 1) * CHUNK_SIZE && n < remaining && cur + n <= |file|
      && Stitch(FileChunks<E>(file, i + 1, count - 1), cur + n, remaining - n) == Ok(Slice(file, cur + n, remaining - n))
    ensures Stitch(FileChunks<E>(file, i, count), cur, remaining) == Ok(Slice(file, cur, remaining))
  {
    var n := Min(remaining, SatSub(Min((i + 1) * CHUNK_SIZE, |file|), cur));
    StitchFileHead<E>(file, i, count, cur, remaining);
    SliceSplit(file, cur, n, remaining);
  }

  /** Adjacent slices of a file concatenate. */
  lemma SliceSplit(file: seq<u8>, cur: nat, n: nat, remaining: nat)
    requires n <= remaining && cur + n <= |file|
    ensures file[cur .. cur + n] + Slice(file, cur + n, remaining - n) == Slice(file, cur, remaining)
  {
  }

  /** The corrected `read_stitched` over the chunks of a file returns exactly
      the bytes of the file in [offset, offset + size), clipped to its end. */
  lemma ReadStitchedReadsFile<E>(file: seq<u8>, offset: nat, size: nat)
    ensures ReadStitched(FileChunks<E>(file, StartChunk(offset), Visited(offset, size)), offset, size)
      == Ok(Slice(file, offset, size))
  {
    var start := StartChunk(offset);
    InChunk(offset, start);
    if start == EndChunk(offset, size) {
      ReadSingleChunkOfFile<E>(file, offset, size);
    } else {
      StitchFile<E>(file, start, Visited(offset, size), offset, size);
    }
  }

  /** A read inside one chunk of a file returns the file's bytes there. */
  lemma ReadSingleChunkOfFile<E>(file: seq<u8>, offset: nat, size: nat)
    requires StartChunk(offset) == EndChunk(offset, size)
    ensures var data := ChunkOf(file, StartChunk(offset));
      var s := Min(offset % CHUNK_SIZE, |data|);
      data[s .. s + Min(size, |data| - s)] == Slice(file, offset, size)
  {
    var start := StartChunk(offset);
    var data := ChunkOf(file, start);
    if size > 0 {
      assert Stitch(FileChunks<E>(file, start, 1), offset, size) == Ok(Slice(file, offset, size)) by {
        InChunk(offset, start);
        StitchFile<E>(file, start, 1, offset, size);
      }
      assert FileChunks<E>(file, start, 1) == [Ok(data)];
      SingleChunkIsStitch<E>(data, offset, size);
    }
  }

  /** On one chunk, the clamped single-chunk branch and the stitching loop agree. */
  lemma SingleChunkIsStitch<E>(data: seq<u8>, offset: nat, size: nat)
    requires size > 0
    ensures var s := Min(offset % CHUNK_SIZE, |data|);
      Stitch<E>([Ok(data)], offset, size) == Ok(data[s .. s + Min(size, |data| - s)])
  {
    var chunks: seq<Result<seq<u8>, E>> := [Ok(data)];
    var s0 := offset % CHUNK_SIZE;
    if Min(size, SatSub(|data|, s0)) > 0 {
      StitchHead(chunks, offset, size);
      assert chunks[1..] == [];
      var n := Min(size, SatSub(|data|, s0));
      assert Stitch<E>([], offset + n, size - n) == Ok([]);
      assert Stitch(chunks, offset, size) == Ok(data[s0 .. s0 + n] + []);
      assert Min(s0, |data|) == s0;
      assert data[s0 .. s0 + n] + [] == data[s0 .. s0 + Min(size, |data| - s0)];
    } else {
      StitchStops(chunks, offset, size);
      var s := Min(s0, |data|);
      assert s == |data|;
      assert data[s .. s + Min(size, |data| - s)] == [];
    }
  }

  // ---------------------------------------------------------------------
  // The chunk cache

  /** The chunk cache and the dirty chunks awaiting upload (the sync
      engine's dirty set), as the write path sees them. */
  datatype Store = Store(cache: map<ChunkId, seq<u8>>, dirty: map<ChunkId, seq<u8>>)

  /** What the network answers for each chunk, and which of its errors a
      write treats as "no such chunk yet" rather than a failure. */
  datatype Source<!E> = Source(remote: ChunkId -> Result<seq<u8>, E>, missing: E -> bool)

  /** What a read of chunk `k` sees: the cached copy, or else the network's answer. */
  function View<E>(cache: map<ChunkId, seq<u8>>, remote: ChunkId -> Result<seq<u8>, E>, k: ChunkId): (r: Result<seq<u8>, E>)
    ensures k in cache ==> r == Ok(cache[k])
    ensures k !in cache ==> r == remote(k)
  {
    if k in cache then Ok(cache[k]) else remote(k)
  }

  /** `fetch_chunk`: a hit returns the cached copy; a miss asks the network and
      caches a successful answer. The result and the new cache. */
  function FetchStep<E>(cache: map<ChunkId, seq<u8>>, remote: ChunkId -> Result<seq<u8>, E>, k: ChunkId)
    : (r: (map<ChunkId, seq<u8>>, Result<seq<u8>, E>))
    ensures r.1 == View(cache, remote, k)
    ensures r.1.Ok? ==> k in r.0 && r.0[k] == r.1.value
    ensures Extends(cache, r.0, remote)
  {
    if k in cache then (cache, Ok(cache[k]))
    else match remote(k)
      case Ok(data) => (cache[k := data], Ok(data))
      case Err(e) => (cache, Err(e))
  }

  /** `next` keeps every entry of `prev` and adds only chunks as the network served them. */
  ghost predicate Extends<E>(prev: map<ChunkId, seq<u8>>, next: map<ChunkId, seq<u8>>, remote: ChunkId -> Result<seq<u8>, E>)
  {
    && (forall k | k in prev :: k in next && next[k] == prev[k])
    && (forall k | k in next && k !in prev :: remote(k) == Ok(next[k]))
  }

  /** A fetch changes what no read of any chunk sees. */
  lemma ExtendsKeepsView<E>(prev: map<ChunkId, seq<u8>>, next: map<ChunkId, seq<u8>>, remote: ChunkId -> Result<seq<u8>, E>, k: ChunkId)
    requires Extends(prev, next, remote)
    ensures View(next, remote, k) == View(prev, remote, k)
  {
  }

  /** Growth of the cache composes. */
  lemma ExtendsTrans<E>(a: map<ChunkId, seq<u8>>, b: map<ChunkId, seq<u8>>, c: map<ChunkId, seq<u8>>, remote: ChunkId -> Result<seq<u8>, E>)
    requires Extends(a, b, remote) && Extends(b, c, remote)
    ensures Extends(a, c, remote)
  {
  }

  /** After a successful fetch the chunk is a hit, whatever the network answers next. */
  lemma FetchThenHit<E>(cache: map<ChunkId, seq<u8>>, remote: ChunkId -> Result<seq<u8>, E>,
                        later: ChunkId -> Result<seq<u8>, E>, k: ChunkId)
    requires FetchStep(cache, remote, k).1.Ok?
    ensures var (next, r) := FetchStep(cache, remote, k);
      FetchStep(next, later, k) == (next, r)
  {
  }

  /** What the reads of the `count` chunks of inode `ino` from chunk `first` on see. */
  function ViewChunks<E>(cache: map<ChunkId, seq<u8>>, remote: ChunkId -> Result<seq<u8>, E>, ino: Inode, first: nat, count: nat)
    : (r: seq<Result<seq<u8>, E>>)
    requires first + count <= TWO_64
    ensures |r| == count
    ensures forall j | 0 <= j < count :: r[j] == View(cache, remote, Key(ino, first + j))
  {
    seq(count, j requires 0 <= j < count => View(cache, remote, Key(ino, first + j)))
  }

  /** Every read of a chunk of inode `ino` sees that chunk of `file`. */
  ghost predicate Serves<E>(cache: map<ChunkId, seq<u8>>, remote: ChunkId -> Result<seq<u8>, E>, ino: Inode, file: seq<u8>)
  {
    forall i | 0 <= i < TWO_64 :: View(cache, remote, Key(ino, i)) == Ok(ChunkOf(file, i))
  }

  /** When cache and network serve a file, a read returns exactly the file's
      bytes at [offset, offset + size), clipped to its end. */
  lemma ReadServedFile<E>(cache: map<ChunkId, seq<u8>>, remote: ChunkId -> Result<seq<u8>, E>, ino: Inode, file: seq<u8>,
                          offset: nat, size: nat)
    requires StartChunk(offset) + Visited(offset, size) <= TWO_64
    requires Serves(cache, remote, ino, file)
    ensures ReadStitched(ViewChunks(cache, remote, ino, StartChunk(offset), Visited(offset, size)), offset, size)
      == Ok(Slice(file, offset, size))
  {
    var first := StartChunk(offset);
    var count := Visited(offset, size);
    assert ViewChunks(cache, remote, ino, first, count) == FileChunks<E>(file, first, count) by {
      forall j | 0 <= j < count
        ensures ViewChunks(cache, remote, ino, first, count)[j] == FileChunks<E>(file, first, count)[j]
      {
        assert View(cache, remote, Key(ino, first + j)) == Ok(ChunkOf(file, first + j));
      }
    }
    ReadStitchedReadsFile<E>(file, offset, size);
  }

  /** Fetching keeps a cache serving the file it served. */
  lemma ExtendsServes<E>(prev: map<ChunkId, seq<u8>>, next: map<ChunkId, seq<u8>>, remote: ChunkId -> Result<seq<u8>, E>,
                         ino: Inode, file: seq<u8>)
    requires Extends(prev, next, remote) && Serves(prev, remote, ino, file)
    ensures Serves(next, remote, ino, file)
  {
    forall i | 0 <= i < TWO_64
      ensures View(next, remote, Key(ino, i)) == Ok(ChunkOf(file, i))
    {
      ExtendsKeepsView(prev, next, remote, Key(ino, i));
    }
  }

  /** Every chunk a read visits has an index below 2^64. */
  lemma VisitedInRange(offset: u64, size: u32)
    ensures StartChunk(offset) + Visited(offset, size) <= TWO_64
  {
  }

  // ---------------------------------------------------------------------
  // Writes

  /** One past the last chunk the write loop visits (`start_chunk..=end_chunk`
      with `end_chunk` 0 for an empty write at offset 0 and otherwise the chunk
      of byte `offset + len - 1`): an empty write at a chunk boundary visits no
      chunk, any other visits at least one. */
  function WriteStop(offset: nat, len: nat): (r: nat)
    ensures StartChunk(offset) <= r
    ensures len > 0 || offset % CHUNK_SIZE != 0 || offset == 0 ==> StartChunk(offset) < r
  {
    if offset + len == 0 then 1 else (offset + len - 1) / CHUNK_SIZE + 1
  }

  /** Where chunk `k`'s piece of the data starts in the data; the loop's
      `written` on reaching chunk `k`. */
  function PieceStart(offset: nat, len: nat, k: nat): (r: nat)
    ensures r <= len
  {
    Min(SatSub(k * CHUNK_SIZE, offset), len)
  }

  /** Where chunk `k`'s piece lands in the chunk: the write's offset inside its
      first chunk, 0 in every later one. */
  function PieceOffset(offset: nat, k: nat): (r: nat)
    ensures r < CHUNK_SIZE
  {
    if k == StartChunk(offset) then offset % CHUNK_SIZE else 0
  }

  /** How many bytes chunk `k` receives: `min(space left in the chunk, bytes left)`. */
  function PieceCount(offset: nat, len: nat, k: nat): (r: nat)
    ensures PieceStart(offset, len, k) + r <= len
    ensures PieceOffset(offset, k) + r <= CHUNK_SIZE
  {
    Min(CHUNK_SIZE - PieceOffset(offset, k), len - PieceStart(offset, len, k))
  }

  /** The pieces tile the data: the first starts at 0, each ends where the next
      begins, every piece lands at its absolute file position, and the loop ends
      having written all of it. */
  lemma PiecesTile(offset: nat, len: nat, k: nat)
    requires StartChunk(offset) <= k < WriteStop(offset, len)
    ensures PieceStart(offset, len, StartChunk(offset)) == 0
    ensures PieceStart(offset, len, k) + PieceCount(offset, len, k) == PieceStart(offset, len, k + 1)
    ensures k * CHUNK_SIZE + PieceOffset(offset, k) == offset + PieceStart(offset, len, k)
    ensures PieceStart(offset, len, WriteStop(offset, len)) == len
  {
    InChunk(offset, StartChunk(offset));
  }

  /** `len` zero bytes. */
  function Zeros(len: nat): (r: seq<u8>)
    ensures |r| == len && forall i | 0 <= i < len :: r[i] == 0
  {
    seq(len, _ => 0)
  }

  /** A chunk after the write loop copies `bytes` to position `off`,
      zero-extending it first when it is shorter than `off + |bytes|`. */
  function Patch(chunk: seq<u8>, off: nat, bytes: seq<u8>): (r: seq<u8>)
    ensures |r| == Max(|chunk|, off + |bytes|)
  {
    var ext := if |chunk| < off + |bytes| then chunk + Zeros(off + |bytes| - |chunk|) else chunk;
    ext[..off] + bytes + ext[off + |bytes|..]
  }

  /** A patched chunk holds the new bytes at `off`. */
  lemma PatchAt(chunk: seq<u8>, off: nat, bytes: seq<u8>, i: nat)
    requires i < |bytes|
    ensures Patch(chunk, off, bytes)[off + i] == bytes[i]
  {
  }

  /** Outside the new bytes a patched chunk holds the old bytes, or zeros past the old end. */
  lemma PatchElsewhere(chunk: seq<u8>, off: nat, bytes: seq<u8>, i: nat)
    requires i < |Patch(chunk, off, bytes)| && !(off <= i < off + |bytes|)
    ensures Patch(chunk, off, bytes)[i] == if i < |chunk| then chunk[i] else 0
  {
  }

  /** What the write loop starts chunk `k` from: the cached copy, else the
      dirty copy, else the network's; an error `missing` accepts starts an
      empty chunk, any other fails the write. */
  function Existing<E>(st: Store, src: Source<E>, k: ChunkId): Result<seq<u8>, E>
  {
    if k in st.cache then Ok(st.cache[k])
    else if k in st.dirty then Ok(st.dirty[k])
    else match src.remote(k)
      case Ok(data) => Ok(data)
      case Err(e) => if src.missing(e) then Ok([]) else Err(e)
  }

  /** Every chunk of the write of `data` at `offset` below `upto` has something to start from. */
  ghost predicate StartsOk<E>(st: Store, src: Source<E>, ino: Inode, offset: nat, upto: nat)
  {
    forall j | StartChunk(offset) <= j < upto && j < TWO_64 :: Existing(st, src, Key(ino, j)).Ok?
  }

  /** Chunk `k` after the write of `data` at `offset`. */
  function Patched<E>(st: Store, src: Source<E>, ino: Inode, offset: nat, data: seq<u8>, k: nat): seq<u8>
    requires k < TWO_64 && Existing(st, src, Key(ino, k)).Ok?
  {
    var from := PieceStart(offset, |data|, k);
    Patch(Existing(st, src, Key(ino, k)).value, PieceOffset(offset, k), data[from .. from + PieceCount(offset, |data|, k)])
  }

  /** The store once the write loop has handled the chunks from the write's
      first chunk up to `upto`: each in both the cache and the dirty set. */
  ghost function Written<E>(st: Store, src: Source<E>, ino: Inode, offset: nat, data: seq<u8>, upto: nat): Store
    requires upto <= TWO_64 && StartsOk(st, src, ino, offset, upto)
    decreases upto
  {
    if upto <= StartChunk(offset) then st
    else
      var prev := Written(st, src, ino, offset, data, upto - 1);
      var k := Key(ino, upto - 1);
      var p := Patched(st, src, ino, offset, data, upto - 1);
      Store(prev.cache[k := p], prev.dirty[k := p])
  }

  /** The write touches only the chunks it visited. */
  lemma {:induction false} WrittenOutside<E>(st: Store, src: Source<E>, ino: Inode, offset: nat, data: seq<u8>, upto: nat, k: ChunkId)
    requires upto <= TWO_64 && StartsOk(st, src, ino, offset, upto)
    requires k.inode != ino || k.index < StartChunk(offset) || k.index >= upto
    ensures var w := Written(st, src, ino, offset, data, upto);
      (k in w.cache <==> k in st.cache) && (k in st.cache ==> w.cache[k] == st.cache[k])
      && (k in w.dirty <==> k in st.dirty) && (k in st.dirty ==> w.dirty[k] == st.dirty[k])
    decreases upto
  {
    if upto > StartChunk(offset) {
      WrittenOutside(st, src, ino, offset, data, upto - 1, k);
    }
  }

  /** One step of the write: the last visited chunk is patched into both maps. */
  lemma WrittenStep<E>(st: Store, src: Source<E>, ino: Inode, offset: nat, data: seq<u8>, upto: nat)
    requires StartChunk(offset) < upto <= TWO_64 && StartsOk(st, src, ino, offset, upto)
    ensures var w := Written(st, src, ino, offset, data, upto);
      var prev := Written(st, src, ino, offset, data, upto - 1);
      var p := Patched(st, src, ino, offset, data, upto - 1);
      w.cache == prev.cache[Key(ino, upto - 1) := p] && w.dirty == prev.dirty[Key(ino, upto - 1) := p]
  {
  }

  /** Every visited chunk holds its patched contents, in the cache and in the dirty set. */
  lemma {:induction false} WrittenAt<E>(st: Store, src: Source<E>, ino: Inode, offset: nat, data: seq<u8>, upto: nat, j: nat)
    requires upto <= TWO_64 && StartsOk(st, src, ino, offset, upto)
    requires StartChunk(offset) <= j < upto
    ensures var w := Written(st, src, ino, offset, data, upto);
      var k := Key(ino, j);
      k in w.cache && k in w.dirty
      && w.cache[k] == Patched(st, src, ino, offset, data, j) && w.dirty[k] == w.cache[k]
    decreases upto
  {
    WrittenStep(st, src, ino, offset, data, upto);
    if j < upto - 1 {
      WrittenAt(st, src, ino, offset, data, upto - 1, j);
    }
  }

  /** File byte `p` of the written range lies in a visited chunk, inside that
      chunk's piece, at the matching position of the data. */
  lemma PieceHolds(offset: nat, len: nat, p: nat)
    requires offset <= p < offset + len
    ensures var j := p / CHUNK_SIZE;
      StartChunk(offset) <= j < WriteStop(offset, len)
      && PieceOffset(offset, j) <= p % CHUNK_SIZE < PieceOffset(offset, j) + PieceCount(offset, len, j)
      && p % CHUNK_SIZE - PieceOffset(offset, j) == p - offset - PieceStart(offset, len, j)
  {
    var j := p / CHUNK_SIZE;
    InChunk(p, j);
    InChunk(offset, StartChunk(offset));
    PiecesTile(offset, len, j);
  }

  /** Inside its piece, a patched chunk holds the data's bytes. */
  lemma PatchedByte<E>(st: Store, src: Source<E>, ino: Inode, offset: nat, data: seq<u8>, j: nat, q: nat)
    requires j < TWO_64 && Existing(st, src, Key(ino, j)).Ok?
    requires PieceOffset(offset, j) <= q < PieceOffset(offset, j) + PieceCount(offset, |data|, j)
    ensures q < |Patched(st, src, ino, offset, data, j)|
    ensures Patched(st, src, ino, offset, data, j)[q] == data[PieceStart(offset, |data|, j) + q - PieceOffset(offset, j)]
  {
    var from := PieceStart(offset, |data|, j);
    var bytes := data[from .. from + PieceCount(offset, |data|, j)];
    PatchAt(Existing(st, src, Key(ino, j)).value, PieceOffset(offset, j), bytes, q - PieceOffset(offset, j));
  }

  /** After a complete write, byte `p` of the file (for `p` in the written
      range) is found in the chunk that holds it, at its chunk position, and
      equals the data's byte there. */
  lemma WriteLandsBytes<E>(st: Store, src: Source<E>, ino: Inode, offset: nat, data: seq<u8>, p: nat)
    requires WriteStop(offset, |data|) <= TWO_64 && StartsOk(st, src, ino, offset, WriteStop(offset, |data|))
    requires offset <= p < offset + |data|
    ensures var w := Written(st, src, ino, offset, data, WriteStop(offset, |data|));
      var k := Key(ino, p / CHUNK_SIZE);
      k in w.dirty && p % CHUNK_SIZE < |w.dirty[k]| && w.dirty[k][p % CHUNK_SIZE] == data[p - offset]
  {
    var j := p / CHUNK_SIZE;
    PieceHolds(offset, |data|, p);
    WrittenAt(st, src, ino, offset, data, WriteStop(offset, |data|), j);
    PatchedByte(st, src, ino, offset, data, j, p % CHUNK_SIZE);
  }

  /** A chunk the write has not reached yet starts from what it was before the write. */
  lemma ExistingAhead<E>(st: Store, src: Source<E>, ino: Inode, offset: nat, data: seq<u8>, upto: nat)
    requires StartChunk(offset) <= upto < TWO_64 && StartsOk(st, src, ino, offset, upto)
    ensures Existing(Written(st, src, ino, offset, data, upto), src, Key(ino, upto)) == Existing(st, src, Key(ino, upto))
  {
    WrittenOutside(st, src, ino, offset, data, upto, Key(ino, upto));
  }

  /** One more chunk with something to start from extends the write's reach. */
  lemma StartsOkNext<E>(st: Store, src: Source<E>, ino: Inode, offset: nat, upto: nat)
    requires upto < TWO_64 && StartsOk(st, src, ino, offset, upto) && Existing(st, src, Key(ino, upto)).Ok?
    ensures StartsOk(st, src, ino, offset, upto + 1)
  {
  }

  /** A chunk that cannot start ends the write's reach. */
  lemma StartsFail<E>(st: Store, src: Source<E>, ino: Inode, offset: nat, upto: nat, stop: nat)
    requires StartChunk(offset) <= upto < stop && upto < TWO_64 && Existing(st, src, Key(ino, upto)).Err?
    ensures !StartsOk(st, src, ino, offset, stop)
  {
  }

  /** A write that ends below 2^64 visits only chunks with 64-bit indices. */
  lemma WriteStopInRange(offset: nat, len: nat)
    requires offset + len < TWO_64
    ensures WriteStop(offset, len) <= TWO_64
  {
  }

  /** Caching a chunk and then overwriting it leaves only the overwrite. */
  lemma UpdateTwice(m: map<ChunkId, seq<u8>>, k: ChunkId, a: seq<u8>, b: seq<u8>)
    ensures m[k := a][k := b] == m[k := b]
  {
  }

  /** The write loop ends having consumed the whole data. */
  lemma PiecesEnd(offset: nat, len: nat)
    ensures PieceStart(offset, len, WriteStop(offset, len)) == len
  {
  }

  /** The loop's own arithmetic for chunk `idx` computes that chunk's piece. */
  lemma PieceAt(offset: nat, len: nat, idx: nat, written: nat, cur: nat)
    requires StartChunk(offset) <= idx < WriteStop(offset, len)
    requires written == PieceStart(offset, len, idx) && cur == offset + written
    ensures idx * CHUNK_SIZE <= cur && cur - idx * CHUNK_SIZE == PieceOffset(offset, idx)
    ensures Min(CHUNK_SIZE - (cur - idx * CHUNK_SIZE), len - written) == PieceCount(offset, len, idx)
    ensures written + PieceCount(offset, len, idx) == PieceStart(offset, len, idx + 1)
  {
    PiecesTile(offset, len, idx);
  }

  /** One iteration of the write loop: patching the chunk it starts from into
      both maps is one more step of `Written`. */
  lemma WrittenNext<E>(st: Store, src: Source<E>, ino: Inode, offset: nat, data: seq<u8>, idx: nat, chunk: seq<u8>)
    requires StartChunk(offset) <= idx < TWO_64 && StartsOk(st, src, ino, offset, idx)
    requires Existing(Written(st, src, ino, offset, data, idx), src, Key(ino, idx)) == Ok(chunk)
    ensures StartsOk(st, src, ino, offset, idx + 1)
    ensures var pre := Written(st, src, ino, offset, data, idx);
      var from := PieceStart(offset, |data|, idx);
      var p := Patch(chunk, PieceOffset(offset, idx), data[from .. from + PieceCount(offset, |data|, idx)]);
      Written(st, src, ino, offset, data, idx + 1) == Store(pre.cache[Key(ino, idx) := p], pre.dirty[Key(ino, idx) := p])
  {
    ExistingAhead(st, src, ino, offset, data, idx);
    StartsOkNext(st, src, ino, offset, idx);
    WrittenStep(st, src, ino, offset, data, idx + 1);
  }

  /** The write loop's invariant: every chunk up to `upto` has something to
      start from, and the store is the write's result up to there. */
  ghost predicate WroteUpTo<E>(st: Store, src: Source<E>, ino: Inode, offset: nat, data: seq<u8>, upto: nat, now: Store)
  {
    upto <= TWO_64 && StartsOk(st, src, ino, offset, upto) && now == Written(st, src, ino, offset, data, upto)
  }

  /** One iteration of the write loop in its own arithmetic: patching the
      chunk at the loop's offset extends the write by that chunk. */
  lemma WriteLoopStep<E>(st: Store, src: Source<E>, ino: Inode, offset: nat, data: seq<u8>, idx: nat,
                         written: nat, cur: nat, off: nat, n: nat, pre: Store, post: Store)
    requires StartChunk(offset) <= idx < WriteStop(offset, |data|) <= TWO_64
    requires written == PieceStart(offset, |data|, idx) && cur == offset + written
    requires WroteUpTo(st, src, ino, offset, data, idx, pre)
    requires off == cur - idx * CHUNK_SIZE && n == Min(CHUNK_SIZE - off, |data| - written) && written + n <= |data|
    requires Existing(pre, src, Key(ino, idx)).Ok?
    requires var p := Patch(Existing(pre, src, Key(ino, idx)).value, off, data[written .. written + n]);
      post == Store(pre.cache[Key(ino, idx) := p], pre.dirty[Key(ino, idx) := p])
    ensures WroteUpTo(st, src, ino, offset, data, idx + 1, post)
  {
    assert off == PieceOffset(offset, idx) && n == PieceCount(offset, |data|, idx) by {
      PieceAt(offset, |data|, idx, written, cur);
    }
    WrittenNext(st, src, ino, offset, data, idx, Existing(pre, src, Key(ino, idx)).value);
  }

  // ---------------------------------------------------------------------
  // The stitching loop, one iteration at a time

  /** The loop's invariant: the bytes gathered so far, followed by what
      stitching the rest yields, is what stitching all the chunks yields. */
  ghost predicate Stitching<E>(chunks: seq<Result<seq<u8>, E>>, offset: nat, size: nat,
                               j: nat, result: seq<u8>, cur: nat, remaining: nat)
  {
    j <= |chunks| && Stitch(chunks, offset, size) == Prepend(result, Stitch(chunks[j..], cur, remaining))
  }

  /** Taking chunk `j`'s bytes keeps the invariant. */
  lemma StitchingStep<E>(chunks: seq<Result<seq<u8>, E>>, offset: nat, size: nat,
                         j: nat, result: seq<u8>, cur: nat, remaining: nat)
    requires Stitching(chunks, offset, size, j, result, cur, remaining)
    requires j < |chunks| && chunks[j].Ok? && remaining > 0
    requires Min(remaining, SatSub(|chunks[j].value|, cur % CHUNK_SIZE)) > 0
    ensures var s := cur % CHUNK_SIZE;
      var n := Min(remaining, SatSub(|chunks[j].value|, s));
      Stitching(chunks, offset, size, j + 1, result + chunks[j].value[s .. s + n], cur + n, remaining - n)
  {
    var s := cur % CHUNK_SIZE;
    var n := Min(remaining, SatSub(|chunks[j].value|, s));
    assert chunks[j..][1..] == chunks[j + 1..];
    StitchHead(chunks[j..], cur, remaining);
    var tail := Stitch(chunks[j + 1..], cur + n, remaining - n);
    if tail.Ok? {
      assert result + (chunks[j].value[s .. s + n] + tail.value) == (result + chunks[j].value[s .. s + n]) + tail.value;
    }
  }

  /** The loop stops with nothing left to read, no chunk left, or a chunk with
      no bytes at the position: what it gathered is the whole answer. */
  lemma StitchingDone<E>(chunks: seq<Result<seq<u8>, E>>, offset: nat, size: nat,
                         j: nat, result: seq<u8>, cur: nat, remaining: nat)
    requires Stitching(chunks, offset, size, j, result, cur, remaining)
    requires remaining == 0 || j == |chunks|
          || (chunks[j].Ok? && Min(remaining, SatSub(|chunks[j].value|, cur % CHUNK_SIZE)) == 0)
    ensures Stitch(chunks, offset, size) == Ok(result)
  {
    if remaining != 0 && j < |chunks| {
      StitchStops(chunks[j..], cur, remaining);
    }
    assert result + [] == result;
  }

  /** A failing chunk fails the whole read. */
  lemma StitchingFails<E>(chunks: seq<Result<seq<u8>, E>>, offset: nat, size: nat,
                          j: nat, result: seq<u8>, cur: nat, remaining: nat)
    requires Stitching(chunks, offset, size, j, result, cur, remaining)
    requires remaining > 0 && j < |chunks| && chunks[j].Err?
    ensures Stitch(chunks, offset, size) == Err(chunks[j].error)
  {
  }

  /** The gathered bytes start out empty. */
  lemma StitchingStart<E>(chunks: seq<Result<seq<u8>, E>>, offset: nat, size: nat)
    ensures Stitching(chunks, offset, size, 0, [], offset, size)
  {
    assert chunks[0..] == chunks;
    match Stitch(chunks, offset, size)
    case Ok(b) => assert [] + b == b;
    case Err(_) =>
  }

  // ---------------------------------------------------------------------
  // The chunk store a mounted filesystem reads and writes through

  /** The chunk cache and the sync engine's dirty chunks, as one front end
      sees them. Both are unbounded maps here: eviction is the cache's own
      business and is modelled with the cache. */
  class ChunkStore<E> {
    var cache: map<ChunkId, seq<u8>>
    var dirty: map<ChunkId, seq<u8>>

    function State(): Store
      reads this
    {
      Store(cache, dirty)
    }

    constructor()
      ensures cache == map[] && dirty == map[]
    {
      cache := map[];
      dirty := map[];
    }

    /** `fetch_chunk`: the cached copy, or the network's answer, cached when it succeeds. */
    method FetchChunk(remote: ChunkId -> Result<seq<u8>, E>, k: ChunkId) returns (r: Result<seq<u8>, E>)
      modifies this
      ensures r == FetchStep(old(cache), remote, k).1
      ensures cache == FetchStep(old(cache), remote, k).0
      ensures dirty == old(dirty)
    {
      if k in cache {
        return Ok(cache[k]);
      }
      r := remote(k);
      if r.Ok? {
        cache := cache[k := r.value];
      }
    }

    /** `read_stitched`, with the single-chunk slice clamped: the answer is the
        stitching rule applied to what each visited chunk's read sees in the
        cache as it was; the cache only gains chunks the network served. */
    method ReadChunks(remote: ChunkId -> Result<seq<u8>, E>, ino: Inode, offset: u64, size: u32)
      returns (r: Result<seq<u8>, E>)
      modifies this
      ensures StartChunk(offset) + Visited(offset, size) <= TWO_64
      ensures r == ReadStitched(ViewChunks(old(cache), remote, ino, StartChunk(offset), Visited(offset, size)), offset, size)
      ensures Extends(old(cache), cache, remote)
      ensures dirty == old(dirty)
    {
      VisitedInRange(offset, size);
      var start := offset as nat / CHUNK_SIZE;
      var count := Visited(offset, size);
      ghost var chunks := ViewChunks(cache, remote, ino, start, count);
      if start == EndChunk(offset, size) {
        var got := FetchChunk(remote, Key(ino, start));
        if got.Err? {
          return Err(got.error);
        }
        var data := got.value;
        var s := Min(offset as nat % CHUNK_SIZE, |data|);
        return Ok(data[s .. s + Min(size as nat, |data| - s)]);
      }
      var result: seq<u8> := [];
      var remaining: nat := size as nat;
      var cur: nat := offset as nat;
      var j := 0;
      StitchingStart(chunks, offset as nat, size as nat);
      while j < count
        invariant j <= count
        invariant Stitching(chunks, offset as nat, size as nat, j, result, cur, remaining)
        invariant Extends(old(cache), cache, remote) && dirty == old(dirty)
        decreases count - j
      {
        if remaining == 0 {
          break;
        }
        ghost var before := cache;
        var got := FetchChunk(remote, Key(ino, start + j));
        ExtendsKeepsView(old(cache), before, remote, Key(ino, start + j));
        ExtendsTrans(old(cache), before, cache, remote);
        if got.Err? {
          StitchingFails(chunks, offset as nat, size as nat, j, result, cur, remaining);
          return Err(got.error);
        }
        var data := got.value;
        var s := cur % CHUNK_SIZE;
        var n := Min(remaining, SatSub(|data|, s));
        if n == 0 {
          break;
        }
        StitchingStep(chunks, offset as nat, size as nat, j, result, cur, remaining);
        result := result + data[s .. s + n];
        remaining := remaining - n;
        cur := cur + n;
        j := j + 1;
      }
      StitchingDone(chunks, offset as nat, size as nat, j, result, cur, remaining);
      return Ok(result);
    }

    /** One iteration of the write loop, for chunk `k`: the chunk starts
        from its cached copy, else its dirty copy, else the network's (an
        error the source counts as missing starts it empty, any other fails
        the write and changes nothing), is zero-extended and overwritten with
        `piece` at `off`, and goes in as dirty and cached. The bounds check
        before the copy cannot fail: the chunk was just extended to hold the
        piece. */
    method WriteChunk(src: Source<E>, k: ChunkId, off: nat, piece: seq<u8>) returns (r: Result<(), E>)
      modifies this
      ensures r.Ok? <==> Existing(old(State()), src, k).Ok?
      ensures r.Ok? ==> (var p := Patch(Existing(old(State()), src, k).value, off, piece);
        cache == old(cache)[k := p] && dirty == old(dirty)[k := p])
      ensures r.Err? ==> Existing(old(State()), src, k) == Err(r.error) && cache == old(cache) && dirty == old(dirty)
    {
      ghost var pre := State();
      var start := StartingChunk(src, k);
      if start.Err? {
        return Err(start.error);
      }
      var chunk := Patch(start.value, off, piece);
      UpdateTwice(pre.cache, k, start.value, chunk);
      dirty := dirty[k := chunk];
      cache := cache[k := chunk];
      return Ok(());
    }

    /** What a write starts chunk `k` from: the cached copy, else the dirty
        copy, else the network's answer, which is cached; an error the
        source counts as missing starts the chunk empty. */
    method StartingChunk(src: Source<E>, k: ChunkId) returns (r: Result<seq<u8>, E>)
      modifies this
      ensures r == Existing(old(State()), src, k)
      ensures dirty == old(dirty)
      ensures cache == old(cache) || (k !in old(cache) && r.Ok? && cache == old(cache)[k := r.value])
    {
      if k in cache {
        r := Ok(cache[k]);
      } else if k in dirty {
        r := Ok(dirty[k]);
      } else {
        match src.remote(k)
        case Ok(d) =>
          cache := cache[k := d];
          r := Ok(d);
        case Err(e) =>
          if src.missing(e) {
            r := Ok([]);
          } else {
            r := Err(e);
          }
      }
    }

    /** One pass of the write loop: chunk `idx` gets its piece of `data`,
        the next `r.value` bytes. */
    method WritePiece(src: Source<E>, ino: Inode, offset: u64, data: seq<u8>, idx: nat, written: nat, cur: nat,
                      ghost st0: Store)
      returns (r: Result<nat, E>)
      requires StartChunk(offset) <= idx < WriteStop(offset, |data|) <= TWO_64
      requires written == PieceStart(offset, |data|, idx) && cur == offset as nat + written
      requires WroteUpTo(st0, src, ino, offset, data, idx, State())
      modifies this
      ensures r.Ok? ==> (written + r.value == PieceStart(offset, |data|, idx + 1)
        && WroteUpTo(st0, src, ino, offset, data, idx + 1, State()))
      ensures r.Err? ==> (StartsOk(st0, src, ino, offset, idx) && State() == Written(st0, src, ino, offset, data, idx)
        && Existing(st0, src, Key(ino, idx)) == Err(r.error) && !StartsOk(st0, src, ino, offset, WriteStop(offset, |data|)))
    {
      ghost var pre := State();
      assert idx * CHUNK_SIZE <= cur
        && written + Min(CHUNK_SIZE - (cur - idx * CHUNK_SIZE), |data| - written) == PieceStart(offset, |data|, idx + 1) by {
        PieceAt(offset, |data|, idx, written, cur);
      }
      var off := cur - idx * CHUNK_SIZE;
      var n := Min(CHUNK_SIZE - off, |data| - written);
      var step := WriteChunk(src, Key(ino, idx), off, data[written .. written + n]);
      if step.Err? {
        assert Existing(st0, src, Key(ino, idx)) == Err(step.error)
          && !StartsOk(st0, src, ino, offset, WriteStop(offset, |data|)) by {
          ExistingAhead(st0, src, ino, offset, data, idx);
          StartsFail(st0, src, ino, offset, idx, WriteStop(offset, |data|));
        }
        return Err(step.error);
      }
      WriteLoopStep(st0, src, ino, offset, data, idx, written, cur, off, n, pre, State());
      return Ok(n);
    }

    /** The write loop of `write`: every chunk from the one holding `offset` to
        the one holding the data's last byte in turn, until one fails. The
        result is the number of bytes written. */
    method WriteChunks(src: Source<E>, ino: Inode, offset: u64, data: seq<u8>)
      returns (r: Result<nat, E>, ghost upto: nat)
      requires offset as nat + |data| < TWO_64
      modifies this
      ensures WriteStop(offset, |data|) <= TWO_64
      ensures r.Ok? <==> StartsOk(old(State()), src, ino, offset, WriteStop(offset, |data|))
      ensures r.Ok? ==> (r.value == |data|
        && State() == Written(old(State()), src, ino, offset, data, WriteStop(offset, |data|)))
      ensures r.Err? ==> (StartChunk(offset) <= upto < WriteStop(offset, |data|)
        && StartsOk(old(State()), src, ino, offset, upto)
        && Existing(old(State()), src, Key(ino, upto)) == Err(r.error)
        && State() == Written(old(State()), src, ino, offset, data, upto))
    {
      ghost var st0 := State();
      WriteStopInRange(offset as nat, |data|);
      var stop := WriteStop(offset as nat, |data|);
      var idx := offset as nat / CHUNK_SIZE;
      var written := 0;
      var cur := offset as nat;
      while idx < stop
        invariant StartChunk(offset) <= idx <= stop <= TWO_64
        invariant written == PieceStart(offset, |data|, idx) && cur == offset as nat + written
        invariant WroteUpTo(st0, src, ino, offset, data, idx, State())
        decreases stop - idx
      {
        var step := WritePiece(src, ino, offset, data, idx, written, cur, st0);
        if step.Err? {
          return Err(step.error), idx;
        }
        written := written + step.value;
        cur := cur + step.value;
        idx := idx + 1;
      }
      assert StartsOk(st0, src, ino, offset, stop) && State() == Written(st0, src, ino, offset, data, stop);
      PiecesEnd(offset as nat, |data|);
      return Ok(written), stop;
    }
  }
}