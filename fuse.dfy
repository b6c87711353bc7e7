/** The single-share FUSE front end (crates/teleport-daemon/src/fuse.rs):
    attribute conversion for the kernel and the read path through the chunk
    cache. The filesystem is read-only: it has no write handler. */
module Fuse {
  import opened Ints
  import opened Wrappers
  import opened Types
  import opened Mount
  import Errors

  /** fuser's file kinds. */
  datatype Kind = RegularFile | DirectoryKind | SymlinkKind

  /** A point in time as nanoseconds since the Unix epoch. */
  datatype SystemTime = SinceEpoch(nanos: nat)

  const UNIX_EPOCH: SystemTime := SinceEpoch(0)
  const NANOS_PER_SEC: nat := 1_000_000_000

  /** The attributes fuser hands to the kernel. */
  datatype FuserAttr = FuserAttr(
    ino: u64, size: u64, blocks: u64,
    atime: SystemTime, mtime: SystemTime, ctime: SystemTime, crtime: SystemTime,
    kind: Kind, perm: u16, nlink: u32, uid: u32, gid: u32, rdev: u32, blksize: u32, flags: u32)

  /** `u64::div_ceil(size, 512)`: the number of 512-byte blocks that hold `size` bytes. */
  function Blocks(size: u64): (r: u64)
    ensures r * 512 >= size
    ensures r == 0 || (r - 1) * 512 < size
  {
    (size + 511) / 512
  }

  /** `UNIX_EPOCH + Duration::new(secs, nsec)`; `Duration::new` carries
      nanoseconds of a second or more into the seconds. */
  function TimeOf(secs: u64, nsec: u32): (t: SystemTime)
    ensures nsec < NANOS_PER_SEC ==> t.nanos / NANOS_PER_SEC == secs && t.nanos % NANOS_PER_SEC == nsec
  {
    SinceEpoch(secs * NANOS_PER_SEC + nsec)
  }

  /** Later timestamps in (seconds, nanoseconds) form stay later. */
  lemma TimeOfOrdered(s1: u64, n1: u32, s2: u64, n2: u32)
    requires n1 < NANOS_PER_SEC && n2 < NANOS_PER_SEC
    ensures TimeOf(s1, n1).nanos < TimeOf(s2, n2).nanos <==> s1 < s2 || (s1 == s2 && n1 < n2)
  {
    if s1 < s2 {
      assert s1 * NANOS_PER_SEC + NANOS_PER_SEC <= s2 * NANOS_PER_SEC;
    } else if s2 < s1 {
      assert s2 * NANOS_PER_SEC + NANOS_PER_SEC <= s1 * NANOS_PER_SEC;
    }
  }

  function KindOf(t: FileType): (k: Kind)
    ensures k.RegularFile? <==> t.File?
    ensures k.DirectoryKind? <==> t.Directory?
    ensures k.SymlinkKind? <==> t.Symlink?
  {
    match t
    case File => RegularFile
    case Directory => DirectoryKind
    case Symlink => SymlinkKind
  }

  /** `to_fuser_attr`: the inode and size pass through, the size in 512-byte
      blocks rounded up, the kind one-to-one, the mode truncated to 16 bits,
      the three timestamps from their (seconds, nanoseconds) pairs, and no
      creation time, device or flags. */
  function ToFuserAttr(attr: FileAttr): (r: FuserAttr)
    ensures r.ino == attr.inode && r.size == attr.size
    ensures r.blocks * 512 >= attr.size && (r.blocks == 0 || (r.blocks - 1) * 512 < attr.size)
    ensures r.kind == KindOf(attr.fileType)
    ensures r.perm == attr.mode % TWO_16
    ensures r.nlink == attr.nlink && r.uid == attr.uid && r.gid == attr.gid
    ensures r.atime == TimeOf(attr.atime, attr.atimeNsec) && r.mtime == TimeOf(attr.mtime, attr.mtimeNsec)
      && r.ctime == TimeOf(attr.ctime, attr.ctimeNsec)
    ensures r.crtime == UNIX_EPOCH && r.rdev == 0 && r.blksize == 512 && r.flags == 0
  {
    FuserAttr(attr.inode, attr.size, Blocks(attr.size),
              TimeOf(attr.atime, attr.atimeNsec), TimeOf(attr.mtime, attr.mtimeNsec), TimeOf(attr.ctime, attr.ctimeNsec),
              UNIX_EPOCH, KindOf(attr.fileType), attr.mode % TWO_16, attr.nlink, attr.uid, attr.gid, 0, 512, 0)
  }

  /** The conversion tells the three file types apart. */
  lemma KindsDistinct(a: FileAttr, b: FileAttr)
    ensures ToFuserAttr(a).kind == ToFuserAttr(b).kind <==> a.fileType == b.fileType
  {
  }

  /** The attribute tests: a 1024-byte file with inode 42 keeps both and is a
      regular file in two blocks; directory 1 keeps its inode. */
  lemma AttrConversionExamples()
    ensures var f := ToFuserAttr(FileAttrOf(42, 1024, 0, 0));
      f.ino == 42 && f.size == 1024 && f.kind == RegularFile && f.blocks == 2
    ensures var d := ToFuserAttr(DirectoryAttr(1, 0, 0));
      d.ino == 1 && d.kind == DirectoryKind
  {
  }

  /** `bridge.read(inode, offset, size)`: what the network answers. */
  type Bridge = (Inode, u64, u32) -> Result<seq<u8>, FuseError>

  /** What `fetch_chunk` asks the bridge for on a miss: the whole chunk. */
  function RemoteOf(bridge: Bridge): (remote: ChunkId -> Result<seq<u8>, FuseError>)
    ensures forall k :: remote(k) == bridge(k.inode, ByteOffset(k), CHUNK_SIZE as u32)
  {
    (k: ChunkId) => bridge(k.inode, ByteOffset(k), CHUNK_SIZE as u32)
  }

  /** What the kernel receives for a read. */
  datatype ReadReply = Data(bytes: seq<u8>) | ReplyErr(errno: int)

  /** `read`'s reply for a result of `read_stitched`: the bytes, ENOENT for a
      missing file, and otherwise the error's errno. */
  function ReadReplyOf(r: Result<seq<u8>, FuseError>): (reply: ReadReply)
    ensures r.Ok? ==> reply == Data(r.value)
    ensures r.Err? ==> reply == ReplyErr(ToErrno(r.error))
  {
    match r
    case Ok(bytes) => Data(bytes)
    case Err(NotFound) => ReplyErr(Errors.ENOENT)
    case Err(e) => ReplyErr(ToErrno(e))
  }

  /** `WormholeFS`: the bridge to the network and the chunk cache. */
  class WormholeFs {
    const bridge: Bridge
    const store: ChunkStore<FuseError>

    constructor(bridge: Bridge)
      ensures this.bridge == bridge && fresh(store) && store.cache == map[] && store.dirty == map[]
    {
      this.bridge := bridge;
      store := new ChunkStore<FuseError>();
    }

    /** `fetch_chunk`: the cached chunk, or the bridge's, cached on success. */
    method FetchChunk(k: ChunkId) returns (r: Result<seq<u8>, FuseError>)
      modifies store
      ensures r == FetchStep(old(store.cache), RemoteOf(bridge), k).1
      ensures store.cache == FetchStep(old(store.cache), RemoteOf(bridge), k).0 && store.dirty == old(store.dirty)
    {
      r := store.FetchChunk(RemoteOf(bridge), k);
    }

    /** `read`: `read_stitched` over what each visited chunk's read sees in the
        cache as it was, turned into the kernel's reply; the cache only gains
        chunks the bridge served. */
    method Read(ino: Inode, offset: u64, size: u32) returns (reply: ReadReply)
      modifies store
      ensures StartChunk(offset) + Visited(offset, size) <= TWO_64
      ensures reply == ReadReplyOf(ReadStitched(ViewChunks(old(store.cache), RemoteOf(bridge), ino, StartChunk(offset),
                                                           Visited(offset, size)), offset, size))
      ensures Extends(old(store.cache), store.cache, RemoteOf(bridge)) && store.dirty == old(store.dirty)
    {
      var r := store.ReadChunks(RemoteOf(bridge), ino, offset, size);
      reply := ReadReplyOf(r);
    }
  }

  /** When the cache and the bridge serve a file, `read` replies with exactly
      its bytes at [offset, offset + size), clipped to its end, and the cache
      still serves it afterwards. */
  lemma ReadRepliesFile(cache: map<ChunkId, seq<u8>>, bridge: Bridge, ino: Inode, file: seq<u8>, offset: u64, size: u32)
    requires Serves(cache, RemoteOf(bridge), ino, file)
    ensures StartChunk(offset) + Visited(offset, size) <= TWO_64
    ensures ReadReplyOf(ReadStitched(ViewChunks(cache, RemoteOf(bridge), ino, StartChunk(offset), Visited(offset, size)),
                                     offset, size)) == Data(Slice(file, offset, size))
  {
    VisitedInRange(offset, size);
    ReadServedFile(cache, RemoteOf(bridge), ino, file, offset, size);
  }
}
