/** The single-share host (crates/teleport-daemon/src/host.rs): the table
    that names every path the host has shown a client by an inode number, and
    the request handlers that answer lookups, attribute queries, directory
    listings, chunk reads and chunk writes. The file system is a parameter:
    each handler receives what `fs::metadata`, `fs::read_dir`, a read or a
    write would return. */
module Host {
  import opened Ints
  import opened Wrappers
  import opened Types
  import Errors
  import Paths
  import LockManager
  import Collections

  const MAX_INODE_ENTRIES: nat := 1_000_000
  /** Ninety per cent of the maximum. */
  const INODE_WARNING_THRESHOLD: nat := MAX_INODE_ENTRIES * 9 / 10

  // ---------------------------------------------------------------------
  // The inode table, as a value

  /** The contents of an `InodeTable`: both maps, the counter and the
      "warned once" flag. */
  datatype TableState = TableState(
    inodeToPath: map<Inode, string>,
    pathToInode: map<string, Inode>,
    nextInode: u64,
    warnedHighUsage: bool)

  /** Each map undoes the other. */
  ghost predicate Inverse(ip: map<Inode, string>, pi: map<string, Inode>) {
    && (forall i | i in ip :: ip[i] in pi && pi[ip[i]] == i)
    && (forall p | p in pi :: pi[p] in ip && ip[pi[p]] == p)
  }

  /** The maps are mutual inverses and every inode in use lies below the
      counter, so the next inode handed out is unused. */
  ghost predicate ValidTable(s: TableState) {
    && Inverse(s.inodeToPath, s.pathToInode)
    && (forall i | i in s.inodeToPath :: i < s.nextInode)
    && FIRST_USER_INODE <= s.nextInode
  }

  /** `InodeTable::new`: the root directory is inode 1, and user inodes
      start at 2. */
  function NewTable(root: string): (s: TableState)
    ensures ValidTable(s)
    ensures s.inodeToPath.Keys == {ROOT_INODE} && s.inodeToPath[ROOT_INODE] == root
    ensures s.pathToInode.Keys == {root} && s.pathToInode[root] == ROOT_INODE
    ensures s.nextInode == FIRST_USER_INODE && !s.warnedHighUsage
  {
    TableState(map[ROOT_INODE := root], map[root := ROOT_INODE], FIRST_USER_INODE, false)
  }

  /** `get_path`. */
  function PathOf(s: TableState, inode: Inode): (r: Option<string>)
    ensures r.Some? <==> inode in s.inodeToPath
    ensures r.Some? ==> r.value == s.inodeToPath[inode]
  {
    if inode in s.inodeToPath then Some(s.inodeToPath[inode]) else None
  }

  /** `get_or_create_inode`: a known path keeps its inode; otherwise no
      inode is handed out once the table is full or when the counter cannot
      be advanced, and the path gets the counter's value. The warning flag
      is raised before the counter is checked. */
  function Alloc(s: TableState, path: string): (r: (TableState, Option<Inode>))
    ensures r.1.Some? <==>
      path in s.pathToInode || (|s.inodeToPath| < MAX_INODE_ENTRIES && s.nextInode < TWO_64 - 1)
    ensures r.1.Some? ==> path in r.0.pathToInode && r.0.pathToInode[path] == r.1.value
    ensures path in s.pathToInode ==> r.0 == s && r.1 == Some(s.pathToInode[path])
    ensures path !in s.pathToInode && r.1.Some? ==> r.1.value == s.nextInode && r.0.nextInode == s.nextInode + 1
    ensures r.1.None? ==>
      r.0.inodeToPath == s.inodeToPath && r.0.pathToInode == s.pathToInode && r.0.nextInode == s.nextInode
    ensures r.0.warnedHighUsage ==
      (s.warnedHighUsage || (path !in s.pathToInode && INODE_WARNING_THRESHOLD <= |s.inodeToPath| < MAX_INODE_ENTRIES))
  {
    if path in s.pathToInode then (s, Some(s.pathToInode[path]))
    else if |s.inodeToPath| >= MAX_INODE_ENTRIES then (s, None)
    else
      var warned := s.warnedHighUsage || |s.inodeToPath| >= INODE_WARNING_THRESHOLD;
      if s.nextInode + 1 >= TWO_64 then (s.(warnedHighUsage := warned), None)
      else
        var inode := s.nextInode;
        (TableState(s.inodeToPath[inode := path], s.pathToInode[path := inode], inode + 1, warned), Some(inode))
  }

  /** `remove_inode`: the inode and its path leave both maps. */
  function Remove(s: TableState, inode: Inode): (r: TableState)
    ensures r.inodeToPath == s.inodeToPath - {inode}
    ensures inode in s.inodeToPath ==> s.inodeToPath[inode] !in r.pathToInode
    ensures inode !in s.inodeToPath ==> r == s
    ensures r.nextInode == s.nextInode && r.warnedHighUsage == s.warnedHighUsage
  {
    if inode in s.inodeToPath then
      s.(inodeToPath := s.inodeToPath - {inode}, pathToInode := s.pathToInode - {s.inodeToPath[inode]})
    else s
  }

  /** The inodes `cleanup_stale_entries` drops: every one but the root whose
      path no longer exists. */
  function Stale(ip: map<Inode, string>, isPresent: string -> bool): set<Inode> {
    set i | i in ip && i != ROOT_INODE && !isPresent(ip[i])
  }

  function Without(ip: map<Inode, string>, gone: set<Inode>): map<Inode, string> {
    map i | i in ip && i !in gone :: ip[i]
  }

  function PathsWithout(pi: map<string, Inode>, gone: set<Inode>): map<string, Inode> {
    map p | p in pi && pi[p] !in gone :: pi[p]
  }

  /** `cleanup_stale_entries`, with `isPresent` standing for
      `Path::exists`: the table keeps the root and every inode whose path
      still exists, reports how many it dropped, and clears the warning flag
      when it dropped any. */
  function Cleanup(s: TableState, isPresent: string -> bool): (r: (TableState, nat))
    ensures forall i :: i in r.0.inodeToPath <==> i in s.inodeToPath && (i == ROOT_INODE || isPresent(s.inodeToPath[i]))
    ensures forall i | i in r.0.inodeToPath :: r.0.inodeToPath[i] == s.inodeToPath[i]
    ensures ROOT_INODE in s.inodeToPath ==> ROOT_INODE in r.0.inodeToPath
    ensures r.1 > 0 ==> !r.0.warnedHighUsage
    ensures r.1 == 0 ==> r.0.warnedHighUsage == s.warnedHighUsage
    ensures r.0.nextInode == s.nextInode
  {
    var gone := Stale(s.inodeToPath, isPresent);
    (TableState(Without(s.inodeToPath, gone), PathsWithout(s.pathToInode, gone), s.nextInode,
                if |gone| > 0 then false else s.warnedHighUsage),
     |gone|)
  }

  // ---------------------------------------------------------------------
  // Properties of the table

  /** Two maps that are both inverses of the same map are equal: the path
      map carries no information of its own. */
  lemma InverseDetermines(ip: map<Inode, string>, a: map<string, Inode>, b: map<string, Inode>)
    requires Inverse(ip, a) && Inverse(ip, b)
    ensures a == b
  {
    assert a.Keys == b.Keys by {
      forall p | p in a ensures p in b {
        assert ip[a[p]] == p;
      }
      forall p | p in b ensures p in a {
        assert ip[b[p]] == p;
      }
    }
  }

  /** Allocation keeps the maps mutual inverses and the counter ahead of
      every inode. */
  lemma AllocKeepsValid(s: TableState, path: string)
    requires ValidTable(s)
    ensures ValidTable(Alloc(s, path).0)
    ensures Alloc(s, path).1.Some? ==>
      var (t, r) := Alloc(s, path); r.value in t.inodeToPath && t.inodeToPath[r.value] == path
  {
  }

  /** Asking again for a path just allocated gives the same inode and
      changes nothing more. */
  lemma AllocIdempotent(s: TableState, path: string)
    requires Alloc(s, path).1.Some?
    ensures Alloc(Alloc(s, path).0, path) == (Alloc(s, path).0, Alloc(s, path).1)
  {
  }

  /** A fresh inode is new to the table, the table grows by exactly one
      entry, and everything it held stays as it was. */
  lemma AllocFresh(s: TableState, path: string)
    requires ValidTable(s) && path !in s.pathToInode && Alloc(s, path).1.Some?
    ensures Alloc(s, path).1.value !in s.inodeToPath
    ensures |Alloc(s, path).0.inodeToPath| == |s.inodeToPath| + 1
  {
  }

  /** Allocation never disturbs an existing entry and grows the table and
      the counter by at most one. */
  lemma AllocExtends(s: TableState, path: string)
    requires ValidTable(s)
    ensures forall j | j in s.inodeToPath :: j in Alloc(s, path).0.inodeToPath && Alloc(s, path).0.inodeToPath[j] == s.inodeToPath[j]
    ensures |Alloc(s, path).0.inodeToPath| <= |s.inodeToPath| + 1
    ensures Alloc(s, path).0.nextInode <= s.nextInode + 1
  {
  }

  /** Two different paths allocated one after the other get different
      inodes, the second above the first. */
  lemma AllocDistinct(s: TableState, p: string, q: string)
    requires ValidTable(s) && p != q
    requires Alloc(s, p).1.Some? && Alloc(Alloc(s, p).0, q).1.Some?
    ensures Alloc(Alloc(s, p).0, q).1.value != Alloc(s, p).1.value
  {
    var s1 := Alloc(s, p).0;
    AllocKeepsValid(s, p);
    assert s1.pathToInode[p] == Alloc(s, p).1.value;
  }

  /** The first path allocated in a new table gets `FIRST_USER_INODE`. */
  lemma FirstAllocation(root: string, path: string)
    requires path != root
    ensures Alloc(NewTable(root), path).1 == Some(FIRST_USER_INODE)
  {
  }

  /** Removal keeps the maps mutual inverses. */
  lemma RemoveKeepsValid(s: TableState, inode: Inode)
    requires ValidTable(s)
    ensures ValidTable(Remove(s, inode))
  {
  }

  /** Cleanup keeps the maps mutual inverses and reports exactly how many
      entries the table lost. */
  lemma CleanupKeepsValid(s: TableState, isPresent: string -> bool)
    requires ValidTable(s)
    ensures ValidTable(Cleanup(s, isPresent).0)
    ensures Cleanup(s, isPresent).1 == |s.inodeToPath| - |Cleanup(s, isPresent).0.inodeToPath|
  {
    var gone := Stale(s.inodeToPath, isPresent);
    var kept := Without(s.inodeToPath, gone);
    assert kept.Keys == s.inodeToPath.Keys - gone;
    assert gone <= s.inodeToPath.Keys;
    Collections.SubsetCard(gone, s.inodeToPath.Keys);
  }

  /** A valid table that kept exactly the inodes cleanup keeps is the state
      cleanup describes. */
  lemma CleanupReached(s: TableState, isPresent: string -> bool, t: TableState)
    requires ValidTable(s) && ValidTable(t)
    requires t.inodeToPath == Without(s.inodeToPath, Stale(s.inodeToPath, isPresent))
    requires t.nextInode == s.nextInode
    requires t.warnedHighUsage == (if |Stale(s.inodeToPath, isPresent)| > 0 then false else s.warnedHighUsage)
    ensures t == Cleanup(s, isPresent).0
  {
    CleanupKeepsValid(s, isPresent);
    InverseDetermines(t.inodeToPath, t.pathToInode, Cleanup(s, isPresent).0.pathToInode);
  }

  /** The loop of `cleanup_stale_entries` has removed the stale inodes
      outside `stale`, and nothing else. */
  ghost predicate Progress(t: TableState, s: TableState, all: set<Inode>, stale: set<Inode>) {
    && ValidTable(t) && stale <= all
    && t.inodeToPath == Without(s.inodeToPath, all - stale)
    && t.nextInode == s.nextInode && t.warnedHighUsage == s.warnedHighUsage
  }

  lemma ProgressStep(t: TableState, s: TableState, all: set<Inode>, stale: set<Inode>, i: Inode)
    requires Progress(t, s, all, stale) && i in stale
    ensures Progress(Remove(t, i), s, all, stale - {i})
  {
    RemoveKeepsValid(t, i);
    assert all - (stale - {i}) == (all - stale) + {i};
    assert Without(s.inodeToPath, all - stale) - {i} == Without(s.inodeToPath, (all - stale) + {i});
  }

  // ---------------------------------------------------------------------
  // The inode table, as the object the host shares between connections

  class InodeTable {
    var inodeToPath: map<Inode, string>
    var pathToInode: map<string, Inode>
    var nextInode: u64
    var warnedHighUsage: bool

    function State(): TableState
      reads this
    {
      TableState(inodeToPath, pathToInode, nextInode, warnedHighUsage)
    }

    ghost predicate Valid()
      reads this
    {
      ValidTable(State())
    }

    constructor(root: string)
      ensures Valid() && State() == NewTable(root)
    {
      inodeToPath := map[ROOT_INODE := root];
      pathToInode := map[root := ROOT_INODE];
      nextInode := FIRST_USER_INODE;
      warnedHighUsage := false;
    }

    function GetPath(inode: Inode): (r: Option<string>)
      reads this
      ensures r == PathOf(State(), inode)
    {
      if inode in inodeToPath then Some(inodeToPath[inode]) else None
    }

    function Len(): nat
      reads this
    {
      |inodeToPath|
    }

    method GetOrCreateInode(path: string) returns (r: Option<Inode>)
      requires Valid()
      modifies this
      ensures Valid()
      ensures (State(), r) == Alloc(old(State()), path)
    {
      AllocKeepsValid(State(), path);
      if path in pathToInode {
        return Some(pathToInode[path]);
      }
      var currentSize := |inodeToPath|;
      if currentSize >= MAX_INODE_ENTRIES {
        return None;
      }
      if currentSize >= INODE_WARNING_THRESHOLD {
        warnedHighUsage := true;
      }
      var inode := nextInode;
      if nextInode + 1 >= TWO_64 {
        return None;
      }
      nextInode := nextInode + 1;
      inodeToPath := inodeToPath[inode := path];
      pathToInode := pathToInode[path := inode];
      r := Some(inode);
    }

    method RemoveInode(inode: Inode)
      requires Valid()
      modifies this
      ensures Valid()
      ensures State() == Remove(old(State()), inode)
    {
      RemoveKeepsValid(State(), inode);
      if inode in inodeToPath {
        var path := inodeToPath[inode];
        inodeToPath := inodeToPath - {inode};
        pathToInode := pathToInode - {path};
      }
    }

    /** The stale inodes are collected first and then removed one at a
        time, in an order the model leaves open. */
    method CleanupStaleEntries(isPresent: string -> bool) returns (removed: nat)
      requires Valid()
      modifies this
      ensures Valid()
      ensures (State(), removed) == Cleanup(old(State()), isPresent)
    {
      ghost var orig := State();
      var stale := Stale(inodeToPath, isPresent);
      ghost var all := stale;
      removed := 0;
      while stale != {}
        invariant Progress(State(), orig, all, stale) && removed + |stale| == |all|
        decreases |stale|
      {
        var i :| i in stale;
        ProgressStep(State(), orig, all, stale, i);
        RemoveInode(i);
        stale := stale - {i};
        removed := removed + 1;
      }
      if removed > 0 {
        warnedHighUsage := false;
      }
      assert all - stale == all;
      CleanupReached(orig, isPresent, State());
    }
  }

  // ---------------------------------------------------------------------
  // What the file system answers

  const TWO_63: int := 0x8000_0000_0000_0000
  type i64 = x: int | -TWO_63 <= x < TWO_63

  const MAX_NSEC: nat := 999_999_999

  datatype IoErrorKind = NotFound | NotADirectory | OtherError

  /** The fields of `std::fs::Metadata` the host reads, with the signed
      timestamps of `MetadataExt`. */
  datatype Metadata = Metadata(
    isDir: bool, isSymlink: bool, len: u64, mode: u32, nlink: u64, uid: u32, gid: u32,
    atime: i64, atimeNsec: i64, mtime: i64, mtimeNsec: i64, ctime: i64, ctimeNsec: i64)

  /** One item of `read_dir`: `None` when the entry itself could not be
      read, `meta` absent when its metadata could not. */
  datatype ListedEntry = ListedEntry(name: string, path: string, meta: Option<Metadata>)

  /** Opening, seeking and reading a file for `handle_read_chunk`: the bytes
      one `read` returns at the offset, and the file's length when its
      metadata can be read. */
  datatype ReadOutcome = OpenFailed | SeekFailed | ReadFailed | ReadBytes(bytes: seq<u8>, fileSize: Option<u64>)

  /** Opening, seeking and writing for `handle_write_chunk`, with the new
      length when it can be read back. */
  datatype WriteOutcome = WriteOpenFailed | WriteSeekFailed | WriteFailed | Written(newSize: Option<u64>)

  /** The host's view of its disk, plus the chunk checksum (BLAKE3 in the
      source), which the model leaves uninterpreted. */
  datatype Env = Env(
    metadata: string -> Result<Metadata, IoErrorKind>,
    readDir: string -> Result<seq<Option<ListedEntry>>, IoErrorKind>,
    readAt: (string, u64) -> ReadOutcome,
    writeAt: (string, u64, seq<u8>) -> WriteOutcome,
    checksum: seq<u8> -> seq<u8>)

  // ---------------------------------------------------------------------
  // Requests and responses

  /** An error code as the host sends it. `LockRequired` is written by the
      write handler but has no variant in the wire code enumeration, so it
      is kept apart. */
  datatype Code = Wire(code: Errors.ErrorCode) | LockRequired

  datatype DirEntry = DirEntry(name: string, inode: Inode, fileType: FileType)

  datatype Request =
    | Lookup(parent: Inode, name: string)
    | GetAttr(inode: Inode)
    | ListDir(dir: Inode, offset: u64, limit: u32)
    | ReadChunk(readId: ChunkId)
    | WriteChunk(writeId: ChunkId, data: seq<u8>, checksum: seq<u8>, lockToken: LockToken)
    | Ping(timestamp: u64, payload: seq<u8>)
      /** Any message the host has no handler for. */
    | Unhandled

  datatype Response =
    | LookupResponse(lookupAttr: Option<FileAttr>)
    | GetAttrResponse(attr: Option<FileAttr>)
    | ListDirResponse(entries: seq<DirEntry>, hasMore: bool, nextOffset: nat)
    | ReadChunkResponse(chunkId: ChunkId, bytes: seq<u8>, sum: seq<u8>, isFinal: bool)
    | WriteChunkResponse(writtenId: ChunkId, success: bool, newSize: Option<u64>)
    | Pong(clientTimestamp: u64, serverTimestamp: u64, pongPayload: seq<u8>)
    | Error(code: Code, relatedInode: Option<Inode>)

  // ---------------------------------------------------------------------
  // Pure pieces of the handlers

  /** `max(0) as u64` on a timestamp in seconds. */
  function ClampSecs(t: i64): (r: u64)
    ensures t < 0 ==> r == 0
    ensures t >= 0 ==> r == t
  {
    if t < 0 then 0 else t
  }

  /** `clamp(0, 999_999_999) as u32` on nanoseconds. */
  function ClampNsec(n: i64): (r: u32)
    ensures r <= MAX_NSEC
    ensures 0 <= n <= MAX_NSEC ==> r == n
    ensures n < 0 ==> r == 0
    ensures n > MAX_NSEC ==> r == MAX_NSEC
  {
    Clamp(n, 0, MAX_NSEC)
  }

  function FileTypeOf(m: Metadata): (t: FileType)
    ensures t == Directory <==> m.isDir
    ensures t == Symlink <==> !m.isDir && m.isSymlink
  {
    if m.isDir then Directory else if m.isSymlink then Symlink else File
  }

  /** `metadata_to_attr`; `nlink() as u32` keeps the low 32 bits. */
  function MetadataToAttr(inode: Inode, m: Metadata): (a: FileAttr)
    ensures a.inode == inode && a.fileType == FileTypeOf(m) && a.size == m.len
    ensures a.atimeNsec <= MAX_NSEC && a.mtimeNsec <= MAX_NSEC && a.ctimeNsec <= MAX_NSEC
    ensures a.atime == Max(m.atime, 0) && a.mtime == Max(m.mtime, 0) && a.ctime == Max(m.ctime, 0)
  {
    FileAttr(inode, FileTypeOf(m), m.len, m.mode, m.nlink % TWO_32, m.uid, m.gid,
             ClampSecs(m.atime), ClampNsec(m.atimeNsec), ClampSecs(m.mtime), ClampNsec(m.mtimeNsec),
             ClampSecs(m.ctime), ClampNsec(m.ctimeNsec))
  }

  /** Metadata already in range (times after 1970, nanoseconds below a
      second, fewer than 2^32 links) passes through unchanged. */
  predicate InRange(m: Metadata) {
    && m.atime >= 0 && m.mtime >= 0 && m.ctime >= 0
    && 0 <= m.atimeNsec <= MAX_NSEC && 0 <= m.mtimeNsec <= MAX_NSEC && 0 <= m.ctimeNsec <= MAX_NSEC
    && m.nlink < TWO_32
  }

  lemma InRangeAttrExact(inode: Inode, m: Metadata)
    requires InRange(m)
    ensures var a := MetadataToAttr(inode, m);
      && a.atime == m.atime && a.mtime == m.mtime && a.ctime == m.ctime
      && a.atimeNsec == m.atimeNsec && a.mtimeNsec == m.mtimeNsec && a.ctimeNsec == m.ctimeNsec
      && a.nlink == m.nlink && a.mode == m.mode && a.uid == m.uid && a.gid == m.gid
  {
  }

  /** `is_final`: `offset.saturating_add(bytes_read) >= file_size`. The
      saturation never changes the answer, since no file size reaches
      2^64. */
  function IsFinal(offset: u64, bytesRead: u64, fileSize: u64): (r: bool)
    ensures r <==> offset + bytesRead >= fileSize
  {
    SatAdd64(offset, bytesRead) >= fileSize
  }

  /** `PathBuf::join` of a single validated file name. */
  function Join(parent: string, name: string): string {
    if parent == [] then name
    else if parent[|parent| - 1] == '/' then parent + name
    else parent + "/" + name
  }

  /** `Path::starts_with`: a component-wise prefix. */
  predicate Within(child: string, base: string) {
    Paths.Components(base) <= Paths.Components(child)
  }

  /** The server timestamp of a `Pong`: milliseconds since the epoch capped
      at `u64::MAX`, or 0 when the clock reads before the epoch. */
  function ServerTimestamp(millis: Option<nat>): (r: u64)
    ensures millis.None? ==> r == 0
    ensures millis.Some? && millis.value < TWO_64 ==> r == millis.value
    ensures millis.Some? && millis.value >= TWO_64 ==> r == TWO_64 - 1
  {
    match millis
    case None => 0
    case Some(m) => Min(m, TWO_64 - 1)
  }

  function IoCode(k: IoErrorKind): Code {
    if k == NotFound then Wire(Errors.FileNotFound)
    else if k == NotADirectory then Wire(Errors.NotADirectory)
    else Wire(Errors.IoError)
  }

  /** `handle_getattr`: no attributes for an unknown inode or a file that
      is gone, an I/O error for any other failure. */
  function HandleGetAttr(s: TableState, env: Env, inode: Inode): (r: Response)
    ensures inode !in s.inodeToPath ==> r == GetAttrResponse(None)
    ensures r.GetAttrResponse? && r.attr.Some? ==>
      && inode in s.inodeToPath && env.metadata(s.inodeToPath[inode]).Ok?
      && r.attr.value == MetadataToAttr(inode, env.metadata(s.inodeToPath[inode]).value)
    ensures r.Error? <==>
      inode in s.inodeToPath && env.metadata(s.inodeToPath[inode]).Err? && env.metadata(s.inodeToPath[inode]).error != NotFound
    ensures r.Error? ==> r == Error(Wire(Errors.IoError), Some(inode))
  {
    match PathOf(s, inode)
    case None => GetAttrResponse(None)
    case Some(path) =>
      match env.metadata(path)
      case Ok(meta) => GetAttrResponse(Some(MetadataToAttr(inode, meta)))
      case Err(kind) =>
        if kind == NotFound then GetAttrResponse(None) else Error(Wire(Errors.IoError), Some(inode))
  }

  /** `handle_read_chunk`: the bytes one read of at most `CHUNK_SIZE` bytes
      returns at the chunk's offset, their checksum, and whether they reach
      the end of the file (whose length counts as 0 when it cannot be
      read). */
  function HandleReadChunk(s: TableState, env: Env, id: ChunkId): (r: Response)
    ensures id.inode !in s.inodeToPath ==> r == Error(Wire(Errors.FileNotFound), Some(id.inode))
    ensures r.Error? ==> r.relatedInode == Some(id.inode)
    ensures r.ReadChunkResponse? ==>
      && id.inode in s.inodeToPath
      && var out := env.readAt(s.inodeToPath[id.inode], ByteOffset(id));
      && out.ReadBytes?
      && r.chunkId == id && |r.bytes| <= CHUNK_SIZE && r.bytes <= out.bytes
      && (|out.bytes| <= CHUNK_SIZE ==> r.bytes == out.bytes)
      && r.sum == env.checksum(r.bytes)
      && (r.isFinal <==> ByteOffset(id) + |r.bytes| >= out.fileSize.GetOr(0))
    ensures id.inode in s.inodeToPath && !env.readAt(s.inodeToPath[id.inode], ByteOffset(id)).ReadBytes? ==>
      r == Error(Wire(Errors.IoError), Some(id.inode))
  {
    match PathOf(s, id.inode)
    case None => Error(Wire(Errors.FileNotFound), Some(id.inode))
    case Some(path) =>
      var offset := ByteOffset(id);
      match env.readAt(path, offset)
      case ReadBytes(bytes, size) =>
        var data := bytes[..Min(|bytes|, CHUNK_SIZE)];
        ReadChunkResponse(id, data, env.checksum(data), IsFinal(offset, |data|, size.GetOr(0)))
      case _ => Error(Wire(Errors.IoError), Some(id.inode))
  }

  /** `handle_write_chunk`, given whether the lock manager accepts the token
      for an exclusive hold. The guards run in the source's order: lock,
      then checksum, then inode, and only then the disk. */
  function HandleWriteChunk(s: TableState, env: Env, lockValid: bool, id: ChunkId, data: seq<u8>, sum: seq<u8>): (r: Response)
    ensures !lockValid ==> r == Error(LockRequired, Some(id.inode))
    ensures lockValid && env.checksum(data) != sum ==> r == Error(Wire(Errors.ChecksumMismatchCode), Some(id.inode))
    ensures lockValid && env.checksum(data) == sum && id.inode !in s.inodeToPath ==>
      r == Error(Wire(Errors.FileNotFound), Some(id.inode))
    ensures r.WriteChunkResponse? <==>
      && lockValid && env.checksum(data) == sum && id.inode in s.inodeToPath
      && env.writeAt(s.inodeToPath[id.inode], ByteOffset(id), data).Written?
    ensures r.WriteChunkResponse? ==>
      r == WriteChunkResponse(id, true, env.writeAt(s.inodeToPath[id.inode], ByteOffset(id), data).newSize)
    ensures r.Error? && r.code == Wire(Errors.IoError) ==>
      lockValid && env.checksum(data) == sum && id.inode in s.inodeToPath
  {
    if !lockValid then Error(LockRequired, Some(id.inode))
    else if env.checksum(data) != sum then Error(Wire(Errors.ChecksumMismatchCode), Some(id.inode))
    else
      match PathOf(s, id.inode)
      case None => Error(Wire(Errors.FileNotFound), Some(id.inode))
      case Some(path) =>
        match env.writeAt(path, ByteOffset(id), data)
        case Written(newSize) => WriteChunkResponse(id, true, newSize)
        case _ => Error(Wire(Errors.IoError), Some(id.inode))
  }

  // ---------------------------------------------------------------------
  // Directory listing

  function ItemOf(e: Option<ListedEntry>): seq<(string, FileType)> {
    if e.Some? && e.value.meta.Some? then [(e.value.name, FileTypeOf(e.value.meta.value))] else []
  }

  /** The names and types of the listed entries that could be read, in
      listing order. */
  function Readable(listing: seq<Option<ListedEntry>>): seq<(string, FileType)> {
    if listing == [] then [] else Readable(listing[..|listing| - 1]) + ItemOf(listing[|listing| - 1])
  }

  function Names(es: seq<DirEntry>): (r: seq<(string, FileType)>)
    ensures |r| == |es|
    ensures forall k | 0 <= k < |es| :: r[k] == (es[k].name, es[k].fileType)
  {
    seq(|es|, k requires 0 <= k < |es| => (es[k].name, es[k].fileType))
  }

  lemma NamesPrefix(es: seq<DirEntry>, k: nat)
    requires k <= |es|
    ensures Names(es[..k]) == Names(es)[..k]
  {
  }

  lemma NamesAppend(es: seq<DirEntry>, e: DirEntry)
    ensures Names(es + [e]) == Names(es) + [(e.name, e.fileType)]
  {
  }

  lemma ReadableStep(listing: seq<Option<ListedEntry>>, lo: nat, i: nat)
    requires lo <= i < |listing|
    ensures Readable(listing[lo..i + 1]) == Readable(listing[lo..i]) + ItemOf(listing[i])
  {
    assert listing[lo..i + 1][..i - lo] == listing[lo..i];
  }

  /** What a prefix of the listing yields is a prefix of what the whole
      listing yields. */
  lemma {:induction false} ReadablePrefix(listing: seq<Option<ListedEntry>>, j: nat)
    requires j <= |listing|
    ensures Readable(listing[..j]) <= Readable(listing)
    decreases |listing|
  {
    if j < |listing| {
      var init := listing[..|listing| - 1];
      assert init[..j] == listing[..j];
      ReadablePrefix(init, j);
    } else {
      assert listing[..j] == listing;
    }
  }

  /** There is room for `n` allocations: neither the table's size nor its
      counter can reach its limit. */
  ghost predicate Roomy(s: TableState, n: nat) {
    |s.inodeToPath| + n <= MAX_INODE_ENTRIES && s.nextInode + n <= TWO_64 - 1
  }

  /** Every collected entry's inode names the path it was listed under. */
  ghost predicate Resolves(s: TableState, es: seq<DirEntry>, paths: seq<string>) {
    && |paths| == |es|
    && forall k | 0 <= k < |es| :: es[k].inode in s.inodeToPath && s.inodeToPath[es[k].inode] == paths[k]
  }

  lemma ResolvesGrow(s: TableState, t: TableState, es: seq<DirEntry>, paths: seq<string>)
    requires Resolves(s, es, paths)
    requires forall j | j in s.inodeToPath :: j in t.inodeToPath && t.inodeToPath[j] == s.inodeToPath[j]
    ensures Resolves(t, es, paths)
  {
  }

  /** The fetch limit `limit.saturating_add(1)`. */
  function FetchLimit(limit: u32): (r: nat)
    ensures limit < TWO_32 - 1 ==> r == limit + 1
    ensures limit == TWO_32 - 1 ==> r == limit
  {
    if limit < TWO_32 - 1 then limit + 1 else limit
  }

  /** The first `n` of a sequence, or all of it. */
  function Take<T>(s: seq<T>, n: nat): (r: seq<T>)
    ensures |r| == Min(n, |s|) && r <= s
  {
    s[..Min(n, |s|)]
  }

  /** A listing that stopped at the fetch limit yields the first `fetch`
      readable entries of the whole listing. */
  lemma StoppedEarly(listing: seq<Option<ListedEntry>>, lo: nat, i: nat, fetch: nat)
    requires lo <= i <= |listing| && |Readable(listing[lo..i])| == fetch
    ensures Take(Readable(listing[lo..]), fetch) == Readable(listing[lo..i])
  {
    assert listing[lo..][..i - lo] == listing[lo..i];
    ReadablePrefix(listing[lo..], i - lo);
  }

  /** What the loop of `handle_listdir` holds after looking at the first
      `i` entries of the listing, starting from table `orig`. */
  ghost predicate Collecting(s: TableState, orig: TableState, listing: seq<Option<ListedEntry>>, offset: nat, fetch: nat,
                             i: nat, collected: seq<DirEntry>, paths: seq<string>) {
    && i <= |listing| && ValidTable(s)
    && |collected| <= fetch && |collected| <= i - Min(offset, i)
    && Resolves(s, collected, paths)
    && |s.inodeToPath| <= |orig.inodeToPath| + i && s.nextInode <= orig.nextInode + i
    && (Roomy(orig, |listing|) ==> Names(collected) == Readable(listing[Min(offset, i)..i]))
  }

  /** What the loop promises once it is done. */
  ghost predicate Collected(s: TableState, orig: TableState, listing: seq<Option<ListedEntry>>, offset: nat, fetch: nat,
                            collected: seq<DirEntry>, paths: seq<string>) {
    && ValidTable(s) && |collected| <= fetch && Resolves(s, collected, paths)
    && (collected != [] ==> offset + |collected| <= |listing|)
    && (Roomy(orig, |listing|) ==> Names(collected) == Take(Readable(listing[Min(offset, |listing|)..]), fetch))
  }

  lemma CollectStart(s: TableState, listing: seq<Option<ListedEntry>>, offset: nat, fetch: nat)
    requires ValidTable(s)
    ensures Collecting(s, s, listing, offset, fetch, 0, [], [])
  {
  }

  /** An entry before `offset`, or one whose metadata cannot be read, is
      passed over. */
  lemma CollectSkip(s: TableState, orig: TableState, listing: seq<Option<ListedEntry>>, offset: nat, fetch: nat,
                    i: nat, collected: seq<DirEntry>, paths: seq<string>)
    requires Collecting(s, orig, listing, offset, fetch, i, collected, paths) && i < |listing|
    requires i < offset || !(listing[i].Some? && listing[i].value.meta.Some?)
    ensures Collecting(s, orig, listing, offset, fetch, i + 1, collected, paths)
  {
    if offset <= i {
      ReadableStep(listing, offset, i);
    }
  }

  /** A readable entry at or after `offset` asks the table for an inode and
      is kept when it gets one. */
  lemma CollectAlloc(s: TableState, orig: TableState, listing: seq<Option<ListedEntry>>, offset: nat, fetch: nat,
                     i: nat, collected: seq<DirEntry>, paths: seq<string>)
    requires Collecting(s, orig, listing, offset, fetch, i, collected, paths)
    requires offset <= i < |listing| && |collected| < fetch
    requires listing[i].Some? && listing[i].value.meta.Some?
    ensures var e := listing[i].value;
      var (s', ino) := Alloc(s, e.path);
      && (ino.None? ==> Collecting(s', orig, listing, offset, fetch, i + 1, collected, paths))
      && (ino.Some? ==>
            Collecting(s', orig, listing, offset, fetch, i + 1,
                       collected + [DirEntry(e.name, ino.value, FileTypeOf(e.meta.value))], paths + [e.path]))
  {
    var e := listing[i].value;
    AllocExtends(s, e.path);
    AllocKeepsValid(s, e.path);
    ResolvesGrow(s, Alloc(s, e.path).0, collected, paths);
    ReadableStep(listing, offset, i);
    if Alloc(s, e.path).1.Some? {
      NamesAppend(collected, DirEntry(e.name, Alloc(s, e.path).1.value, FileTypeOf(e.meta.value)));
    }
  }

  /** The loop ends when the listing runs out or the fetch limit is
      reached. */
  lemma CollectEnd(s: TableState, orig: TableState, listing: seq<Option<ListedEntry>>, offset: nat, fetch: nat,
                   i: nat, collected: seq<DirEntry>, paths: seq<string>)
    requires Collecting(s, orig, listing, offset, fetch, i, collected, paths)
    requires i == |listing| || (offset <= i && |collected| >= fetch)
    ensures Collected(s, orig, listing, offset, fetch, collected, paths)
  {
    if Roomy(orig, |listing|) {
      if i < |listing| {
        StoppedEarly(listing, offset, i, fetch);
      } else {
        var lo := Min(offset, i);
        assert listing[lo..i] == listing[lo..];
      }
    }
  }

  /** The loop of `handle_listdir`: entries before `offset` are skipped,
      collection stops once `fetch` entries are held, and an entry is kept
      when its metadata can be read and it gets an inode. */
  method CollectEntries(t: InodeTable, listing: seq<Option<ListedEntry>>, offset: u64, fetch: nat)
    returns (collected: seq<DirEntry>, ghost paths: seq<string>)
    requires t.Valid()
    modifies t
    ensures Collected(t.State(), old(t.State()), listing, offset, fetch, collected, paths)
  {
    ghost var orig := t.State();
    CollectStart(orig, listing, offset, fetch);
    collected, paths := [], [];
    var i: nat := 0;
    while i < |listing|
      invariant Collecting(t.State(), orig, listing, offset, fetch, i, collected, paths)
    {
      if i < offset {
        CollectSkip(t.State(), orig, listing, offset, fetch, i, collected, paths);
        i := i + 1;
        continue;
      }
      if |collected| >= fetch {
        break;
      }
      var entry := listing[i];
      if entry.Some? && entry.value.meta.Some? {
        CollectAlloc(t.State(), orig, listing, offset, fetch, i, collected, paths);
        var inode := t.GetOrCreateInode(entry.value.path);
        if inode.Some? {
          collected, paths := collected + [DirEntry(entry.value.name, inode.value, FileTypeOf(entry.value.meta.value))],
                              paths + [entry.value.path];
        }
      } else {
        CollectSkip(t.State(), orig, listing, offset, fetch, i, collected, paths);
      }
      i := i + 1;
    }
    CollectEnd(t.State(), orig, listing, offset, fetch, i, collected, paths);
  }

  /** `handle_listdir`. */
  method HandleListDir(t: InodeTable, env: Env, inode: Inode, offset: u64, limit: u32) returns (r: Response)
    requires t.Valid()
    modifies t
    ensures t.Valid()
    ensures inode !in old(t.inodeToPath) ==>
      r == Error(Wire(Errors.FileNotFound), Some(inode)) && t.State() == old(t.State())
    ensures inode in old(t.inodeToPath) && env.readDir(old(t.inodeToPath)[inode]).Err? ==>
      && r == Error(IoCode(env.readDir(old(t.inodeToPath)[inode]).error), Some(inode))
      && t.State() == old(t.State())
    ensures r.ListDirResponse? ==>
      && |r.entries| <= limit && r.nextOffset == offset + |r.entries|
      && (forall k | 0 <= k < |r.entries| :: r.entries[k].inode in t.inodeToPath)
    ensures inode in old(t.inodeToPath) && env.readDir(old(t.inodeToPath)[inode]).Ok? ==>
      var listing := env.readDir(old(t.inodeToPath)[inode]).value;
      && r.ListDirResponse?
      && (r.entries != [] ==> r.nextOffset <= |listing|)
      && (Roomy(old(t.State()), |listing|) ==>
            var readable := Readable(listing[Min(offset, |listing|)..]);
            && Names(r.entries) == Take(readable, limit)
            && (r.hasMore <==> limit < TWO_32 - 1 && |readable| > limit))
  {
    var path := t.GetPath(inode);
    if path.None? {
      return Error(Wire(Errors.FileNotFound), Some(inode));
    }
    match env.readDir(path.value)
    case Err(kind) =>
      r := Error(IoCode(kind), Some(inode));
    case Ok(listing) =>
      var collected;
      ghost var paths;
      collected, paths := CollectEntries(t, listing, offset, FetchLimit(limit));
      var hasMore := |collected| > limit;
      var kept := Min(|collected|, limit);
      NamesPrefix(collected, kept);
      r := ListDirResponse(collected[..kept], hasMore, offset + kept);
  }

  /** `handle_lookup` on the table's contents: the parent must be known,
      the name must be a plain file name and the child must stay inside the
      shared directory; a child that exists gets an inode. */
  function LookupStep(s: TableState, env: Env, shared: string, parent: Inode, name: string): (r: (TableState, Response))
    ensures parent !in s.inodeToPath ==> r == (s, LookupResponse(None))
    ensures parent in s.inodeToPath && Paths.ValidateFilename(name).Err? ==>
      r == (s, Error(Wire(Errors.PathTraversalCode), Some(parent)))
    ensures parent in s.inodeToPath && Paths.ValidateFilename(name).Ok? && !Within(Join(s.inodeToPath[parent], name), shared) ==>
      r == (s, Error(Wire(Errors.PathTraversalCode), Some(parent)))
    ensures r.0 == s || (parent in s.inodeToPath && r.0 == Alloc(s, Join(s.inodeToPath[parent], name)).0)
    ensures r.1.LookupResponse? && r.1.lookupAttr.Some? ==>
      && parent in s.inodeToPath && Paths.ValidateFilename(name).Ok?
      && var child := Join(s.inodeToPath[parent], name);
      && Within(child, shared) && env.metadata(child).Ok? && Alloc(s, child).1.Some?
      && r.1.lookupAttr.value == MetadataToAttr(Alloc(s, child).1.value, env.metadata(child).value)
  {
    match PathOf(s, parent)
    case None => (s, LookupResponse(None))
    case Some(parentPath) =>
      if Paths.ValidateFilename(name).Err? then (s, Error(Wire(Errors.PathTraversalCode), Some(parent)))
      else
        var child := Join(parentPath, name);
        if !Within(child, shared) then (s, Error(Wire(Errors.PathTraversalCode), Some(parent)))
        else
          match env.metadata(child)
          case Ok(meta) =>
            var (s', inode) := Alloc(s, child);
            if inode.None? then (s', Error(Wire(Errors.IoError), Some(parent)))
            else (s', LookupResponse(Some(MetadataToAttr(inode.value, meta))))
          case Err(kind) =>
            if kind == NotFound then (s, LookupResponse(None)) else (s, Error(Wire(Errors.IoError), Some(parent)))
  }

  /** The inode a successful lookup reports names the child's path. */
  lemma LookupNamesChild(s: TableState, env: Env, shared: string, parent: Inode, name: string)
    requires ValidTable(s)
    requires LookupStep(s, env, shared, parent, name).1.LookupResponse?
    requires LookupStep(s, env, shared, parent, name).1.lookupAttr.Some?
    ensures var (s', resp) := LookupStep(s, env, shared, parent, name);
      && ValidTable(s')
      && resp.lookupAttr.value.inode in s'.inodeToPath
      && s'.inodeToPath[resp.lookupAttr.value.inode] == Join(s.inodeToPath[parent], name)
  {
    AllocKeepsValid(s, Join(s.inodeToPath[parent], name));
  }

  method HandleLookup(t: InodeTable, env: Env, shared: string, parent: Inode, name: string) returns (r: Response)
    requires t.Valid()
    modifies t
    ensures t.Valid()
    ensures (t.State(), r) == LookupStep(old(t.State()), env, shared, parent, name)
  {
    var parentPath := t.GetPath(parent);
    if parentPath.None? {
      return LookupResponse(None);
    }
    if Paths.ValidateFilename(name).Err? {
      return Error(Wire(Errors.PathTraversalCode), Some(parent));
    }
    var child := Join(parentPath.value, name);
    if !Within(child, shared) {
      return Error(Wire(Errors.PathTraversalCode), Some(parent));
    }
    match env.metadata(child)
    case Ok(meta) =>
      var inode := t.GetOrCreateInode(child);
      if inode.None? {
        return Error(Wire(Errors.IoError), Some(parent));
      }
      r := LookupResponse(Some(MetadataToAttr(inode.value, meta)));
    case Err(kind) =>
      r := if kind == NotFound then LookupResponse(None) else Error(Wire(Errors.IoError), Some(parent));
  }

  /** `handle_request`: each request goes to its handler. A write is
      checked against the lock manager for an exclusive hold at `now`, and
      `millis` is the wall clock a `Pong` reports. Lookups are confined to
      `shared`. */
  method HandleRequest(t: InodeTable, locks: LockManager.LockManager, now: nat, env: Env, shared: string,
                       millis: Option<nat>, req: Request)
    returns (r: Response)
    requires t.Valid()
    modifies t
    ensures t.Valid()
    ensures req.Lookup? ==> (t.State(), r) == LookupStep(old(t.State()), env, shared, req.parent, req.name)
    ensures !req.Lookup? && !req.ListDir? ==> t.State() == old(t.State())
    ensures req.GetAttr? ==> r == HandleGetAttr(old(t.State()), env, req.inode)
    ensures req.ReadChunk? ==> r == HandleReadChunk(old(t.State()), env, req.readId)
    ensures req.WriteChunk? ==>
      r == HandleWriteChunk(old(t.State()), env, locks.Validate(req.writeId.inode, req.lockToken, Exclusive, now),
                            req.writeId, req.data, req.checksum)
    ensures req.Ping? ==> r == Pong(req.timestamp, ServerTimestamp(millis), req.payload)
    ensures req.Unhandled? ==> r == Error(Wire(Errors.NotImplemented), None)
  {
    match req
    case Lookup(parent, name) =>
      r := HandleLookup(t, env, shared, parent, name);
    case GetAttr(inode) =>
      r := HandleGetAttr(t.State(), env, inode);
    case ListDir(dir, offset, limit) =>
      r := HandleListDir(t, env, dir, offset, limit);
    case ReadChunk(id) =>
      r := HandleReadChunk(t.State(), env, id);
    case WriteChunk(id, data, sum, token) =>
      r := HandleWriteChunk(t.State(), env, locks.Validate(id.inode, token, Exclusive, now), id, data, sum);
    case Ping(ts, payload) =>
      r := Pong(ts, ServerTimestamp(millis), payload);
    case Unhandled =>
      r := Error(Wire(Errors.NotImplemented), None);
  }
}
