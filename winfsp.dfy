/** The Windows front end (crates/teleport-daemon/src/winfsp.rs): file
    information for WinFSP, path resolution by successive lookups, and the
    read and write paths through the chunk cache and the dirty set. */
module Winfsp {
  import opened Ints
  import opened Wrappers
  import opened Types
  import opened Mount
  import Fuse
  import opened Strings

  // ---------------------------------------------------------------------
  // File information

  const FILE_ATTRIBUTE_DIRECTORY: u32 := 0x10
  const FILE_ATTRIBUTE_NORMAL: u32 := 0x80
  const FILE_ATTRIBUTE_REPARSE_POINT: u32 := 0x400

  /** 100-nanosecond intervals from 1601-01-01 to the Unix epoch. */
  const EPOCH_DIFF: nat := 116444736000000000
  const INTERVALS_PER_SEC: nat := 10_000_000

  /** The part of WinFSP's `FileInfo` that the conversion fills in. */
  datatype FileInfo = FileInfo(
    fileAttributes: u32, fileSize: u64, allocationSize: u64,
    lastAccessTime: u64, lastWriteTime: u64, changeTime: u64, creationTime: u64,
    indexNumber: u64)

  function AttributesOf(t: FileType): (r: u32)
    ensures r == FILE_ATTRIBUTE_DIRECTORY <==> t.Directory?
    ensures r == FILE_ATTRIBUTE_NORMAL <==> t.File?
    ensures r == FILE_ATTRIBUTE_REPARSE_POINT <==> t.Symlink?
  {
    match t
    case Directory => FILE_ATTRIBUTE_DIRECTORY
    case File => FILE_ATTRIBUTE_NORMAL
    case Symlink => FILE_ATTRIBUTE_REPARSE_POINT
  }

  /** `((size + 4095) / 4096) * 4096` in wrapping `u64` arithmetic: the size
      rounded up to whole 4 KiB clusters, unless the addition wraps. */
  function AllocationSize(size: u64): (r: u64)
    ensures r % 4096 == 0
    ensures size + 4095 < TWO_64 ==> size <= r < size + 4096
  {
    ((size + 4095) % TWO_64) / 4096 * 4096
  }

  /** A Unix time in seconds as a Windows FILETIME, `secs * 10^7 + EPOCH_DIFF`
      in wrapping `u64` arithmetic. The nanoseconds are not carried over. */
  function FileTime(secs: u64): (r: u64)
  {
    (secs * INTERVALS_PER_SEC + EPOCH_DIFF) % TWO_64
  }

  /** The largest Unix second whose FILETIME does not wrap. */
  const LAST_UNWRAPPED_SEC: nat := (TWO_64 - 1 - EPOCH_DIFF) / INTERVALS_PER_SEC

  /** Below the wrap, a FILETIME names its second: subtracting the epoch
      difference and dividing by 10^7 gives it back, and later seconds get
      later FILETIMEs. */
  lemma FileTimeInverse(a: u64, b: u64)
    requires a <= LAST_UNWRAPPED_SEC && b <= LAST_UNWRAPPED_SEC
    ensures FileTime(a) >= EPOCH_DIFF && (FileTime(a) - EPOCH_DIFF) / INTERVALS_PER_SEC == a
    ensures FileTime(a) % INTERVALS_PER_SEC == EPOCH_DIFF % INTERVALS_PER_SEC
    ensures a < b ==> FileTime(a) < FileTime(b)
  {
    assert a * INTERVALS_PER_SEC + EPOCH_DIFF < TWO_64;
    assert b * INTERVALS_PER_SEC + EPOCH_DIFF < TWO_64;
    if a < b {
      assert a * INTERVALS_PER_SEC < b * INTERVALS_PER_SEC;
    }
  }

  /** `attr_to_file_info`: the type as a file attribute, the size and its
      cluster-rounded allocation, the three Unix times as FILETIMEs with the
      change time also standing for the creation time, and the inode as the
      index number. */
  function AttrToFileInfo(attr: FileAttr): (info: FileInfo)
    ensures info.fileAttributes == AttributesOf(attr.fileType)
    ensures info.fileSize == attr.size && info.indexNumber == attr.inode
    ensures info.allocationSize % 4096 == 0
    ensures attr.size + 4095 < TWO_64 ==> attr.size <= info.allocationSize < attr.size + 4096
    ensures info.lastAccessTime == FileTime(attr.atime) && info.lastWriteTime == FileTime(attr.mtime)
    ensures info.changeTime == FileTime(attr.ctime) && info.creationTime == info.changeTime
  {
    FileInfo(AttributesOf(attr.fileType), attr.size, AllocationSize(attr.size),
             FileTime(attr.atime), FileTime(attr.mtime), FileTime(attr.ctime), FileTime(attr.ctime), attr.inode)
  }

  /** The conversion tests: a 1024-byte file with inode 42, and directory 1. */
  lemma FileInfoExamples(secs: u64, nsecs: u32)
    ensures var f := AttrToFileInfo(FileAttrOf(42, 1024, secs, nsecs));
      f.fileSize == 1024 && f.indexNumber == 42 && f.fileAttributes == FILE_ATTRIBUTE_NORMAL && f.allocationSize == 4096
    ensures var d := AttrToFileInfo(DirectoryAttr(1, secs, nsecs));
      d.indexNumber == 1 && d.fileAttributes == FILE_ATTRIBUTE_DIRECTORY
  {
  }

  // ---------------------------------------------------------------------
  // Errors

  /** The failures a WinFSP call reports: a status of its own, or the
      bridge error's NTSTATUS. */
  datatype WinError = NameNotFound | WriteProtected | Status(error: FuseError)

  // ---------------------------------------------------------------------
  // Path resolution

  predicate IsSeparator(c: char) {
    c == '\\' || c == '/'
  }

  /** `split(|c| c == '\\' || c == '/')`: the pieces between separators,
      empty ones included; rejoining them with any separators gives back a
      string of the same length. */
  function SplitPath(s: string): (parts: seq<string>)
    ensures |parts| >= 1
  {
    if |s| == 0 then [""]
    else if IsSeparator(s[0]) then [""] + SplitPath(s[1..])
    else var r := SplitPath(s[1..]); [[s[0]] + r[0]] + r[1..]
  }

  /** A string without separators is one piece. */
  lemma {:induction false} SplitWhole(s: string)
    requires forall i | 0 <= i < |s| :: !IsSeparator(s[i])
    ensures SplitPath(s) == [s]
  {
    if |s| > 0 {
      SplitWhole(s[1..]);
      assert [s[0]] + s[1..] == s;
    }
  }

  /** A piece never holds a separator, and a separator always splits. */
  lemma {:induction false} SplitPieces(s: string)
    ensures forall j, i | 0 <= j < |SplitPath(s)| && 0 <= i < |SplitPath(s)[j]| :: !IsSeparator(SplitPath(s)[j][i])
    ensures (exists i | 0 <= i < |s| :: IsSeparator(s[i])) ==> |SplitPath(s)| >= 2
  {
    if |s| > 0 {
      SplitPieces(s[1..]);
      if !IsSeparator(s[0]) && exists i | 0 <= i < |s| :: IsSeparator(s[i]) {
        var i :| 0 <= i < |s| && IsSeparator(s[i]);
        assert s[1..][i - 1] == s[i];
      }
    }
  }

  /** The lookup the bridge performs: the attributes of the entry `name` in
      directory `parent`. */
  type Lookup = (Inode, string) -> Result<FileAttr, FuseError>

  function LookupError(e: FuseError): (r: WinError)
    ensures r == NameNotFound <==> e.NotFound?
  {
    if e.NotFound? then NameNotFound else Status(e)
  }

  /** Walking `names` down from directory `cur`, skipping empty names: the
      directory reached, or the first failed lookup's error. */
  function Walk(lookup: Lookup, cur: Inode, names: seq<string>): Result<Inode, WinError>
    decreases |names|
  {
    if |names| == 0 then Ok(cur)
    else if names[0] == "" then Walk(lookup, cur, names[1..])
    else match lookup(cur, names[0])
      case Ok(attr) => Walk(lookup, attr.inode, names[1..])
      case Err(e) => Err(LookupError(e))
  }

  /** Walking a concatenation walks the first part, then the second from
      where the first ended. */
  lemma {:induction false} WalkAppend(lookup: Lookup, cur: Inode, a: seq<string>, b: seq<string>)
    ensures Walk(lookup, cur, a + b) == match Walk(lookup, cur, a) case Ok(mid) => Walk(lookup, mid, b) case Err(e) => Err(e)
    decreases |a|
  {
    if |a| > 0 {
      assert (a + b)[1..] == a[1..] + b;
      if a[0] == "" {
        WalkAppend(lookup, cur, a[1..], b);
      } else if lookup(cur, a[0]).Ok? {
        WalkAppend(lookup, lookup(cur, a[0]).value.inode, a[1..], b);
      }
    } else {
      assert a + b == b;
    }
  }

  /** `resolve_path`: the parent directory and the final name of `path`. */
  function Resolve(lookup: Lookup, path: string): (r: Result<(Inode, string), WinError>)
  {
    var p := TrimStart(TrimStart(path, '\\'), '/');
    if |p| == 0 then Ok((ROOT_INODE, "."))
    else
      var parts := SplitPath(p);
      if |parts| == 1 then Ok((ROOT_INODE, parts[0]))
      else match Walk(lookup, ROOT_INODE, parts[..|parts| - 1])
        case Ok(parent) => Ok((parent, parts[|parts| - 1]))
        case Err(e) => Err(e)
  }

  /** `resolve_path` as the loop that walks `current_inode` down the
      interior components. */
  method ResolvePath(lookup: Lookup, path: string) returns (r: Result<(Inode, string), WinError>)
    ensures r == Resolve(lookup, path)
  {
    var p := TrimStart(TrimStart(path, '\\'), '/');
    if |p| == 0 {
      return Ok((ROOT_INODE, "."));
    }
    var parts := SplitPath(p);
    if |parts| == 1 {
      return Ok((ROOT_INODE, parts[0]));
    }
    var current: Inode := ROOT_INODE;
    var i := 0;
    while i < |parts| - 1
      invariant 0 <= i <= |parts| - 1
      invariant Walk(lookup, ROOT_INODE, parts[..|parts| - 1]) == Walk(lookup, current, parts[i..|parts| - 1])
    {
      assert parts[i..|parts| - 1][1..] == parts[i + 1..|parts| - 1];
      var name := parts[i];
      if name == "" {
        i := i + 1;
        continue;
      }
      var found := lookup(current, name);
      if found.Err? {
        return Err(LookupError(found.error));
      }
      current := found.value.inode;
      i := i + 1;
    }
    r := Ok((current, parts[|parts| - 1]));
  }

  /** A path with no separator past its leading ones names an entry of the root. */
  lemma ResolveRootEntry(lookup: Lookup, name: string)
    requires |name| > 0 && forall i | 0 <= i < |name| :: !IsSeparator(name[i])
    ensures Resolve(lookup, "\\" + name) == Ok((ROOT_INODE, name))
    ensures Resolve(lookup, name) == Ok((ROOT_INODE, name))
  {
    assert ("\\" + name)[1..] == name;
    assert name[0] != '\\' && name[0] != '/';
    assert TrimStart("\\" + name, '\\') == TrimStart(name, '\\') == name;
    SplitWhole(name);
  }

  /** A path of separators alone names the root itself. */
  lemma ResolveRoot(lookup: Lookup)
    ensures Resolve(lookup, "") == Ok((ROOT_INODE, "."))
    ensures Resolve(lookup, "\\") == Ok((ROOT_INODE, "."))
  {
    var sep := "\\";
    assert sep[1..] == [];
  }

  /** Resolving `dir\rest` for a directory name and a nested rest walks into
      the directory first: its parent is the parent of `rest` resolved there. */
  lemma ResolveDescends(lookup: Lookup, dir: string, rest: string)
    requires |dir| > 0 && (forall i | 0 <= i < |dir| :: !IsSeparator(dir[i])) && dir[0] != '/'
    requires |SplitPath(rest)| >= 2
    ensures var parts := SplitPath(rest);
      Resolve(lookup, dir + "\\" + rest)
        == match lookup(ROOT_INODE, dir)
           case Err(e) => Err(LookupError(e))
           case Ok(attr) =>
             match Walk(lookup, attr.inode, parts[..|parts| - 1])
             case Ok(parent) => Ok((parent, parts[|parts| - 1]))
             case Err(e) => Err(e)
  {
    var path := dir + "\\" + rest;
    SplitPrefix(dir, rest);
    assert TrimStart(path, '\\') == path;
    assert TrimStart(path, '/') == path;
    var parts := SplitPath(rest);
    assert SplitPath(path)[..|SplitPath(path)| - 1] == [dir] + parts[..|parts| - 1];
    WalkAppend(lookup, ROOT_INODE, [dir], parts[..|parts| - 1]);
  }

  lemma {:induction false} SplitPrefix(dir: string, rest: string)
    requires forall i | 0 <= i < |dir| :: !IsSeparator(dir[i])
    ensures SplitPath(dir + "\\" + rest) == [dir] + SplitPath(rest)
    decreases |dir|
  {
    if |dir| == 0 {
      assert ("" + "\\" + rest)[1..] == rest;
    } else {
      assert (dir + "\\" + rest)[1..] == dir[1..] + "\\" + rest;
      SplitPrefix(dir[1..], rest);
      assert [dir[0]] + dir[1..] == dir;
    }
  }

  // ---------------------------------------------------------------------
  // The filesystem

  /** `bridge.getattr(inode)`. */
  type GetAttr = Inode -> Result<FileAttr, FuseError>

  /** `write` treats a chunk the bridge reports as not found as empty. */
  function SourceOf(bridge: Fuse.Bridge): Source<FuseError> {
    Source(Fuse.RemoteOf(bridge), (e: FuseError) => e.NotFound?)
  }

  /** The file information `write` hands back: the fresh attributes when
      `getattr` succeeds, otherwise the caller's left as they were. */
  function InfoAfterWrite(getattr: GetAttr, ino: Inode): (r: Option<FileInfo>)
    ensures getattr(ino).Ok? <==> r.Some?
    ensures r.Some? ==> r.value == AttrToFileInfo(getattr(ino).value)
  {
    match getattr(ino)
    case Ok(attr) => Some(AttrToFileInfo(attr))
    case Err(_) => None
  }

  /** `WormholeWinFS`: the bridge, the chunk cache and the dirty set. */
  class WinFs {
    const bridge: Fuse.Bridge
    const getattr: GetAttr
    const writable: bool
    const store: ChunkStore<FuseError>

    constructor(bridge: Fuse.Bridge, getattr: GetAttr, writable: bool)
      ensures this.bridge == bridge && this.getattr == getattr && this.writable == writable
      ensures fresh(store) && store.cache == map[] && store.dirty == map[]
    {
      this.bridge := bridge;
      this.getattr := getattr;
      this.writable := writable;
      store := new ChunkStore<FuseError>();
    }

    /** `read` into a buffer of `length` bytes: `read_stitched` for
        `length as u32` bytes; every failure becomes its NTSTATUS. */
    method Read(ino: Inode, offset: u64, length: nat) returns (r: Result<seq<u8>, WinError>)
      modifies store
      ensures StartChunk(offset) + Visited(offset, length % TWO_32) <= TWO_64
      ensures r == match ReadStitched(ViewChunks(old(store.cache), Fuse.RemoteOf(bridge), ino, StartChunk(offset),
                                                 Visited(offset, length % TWO_32)), offset, length % TWO_32)
                   case Ok(bytes) => Ok(bytes)
                   case Err(e) => Err(Status(e))
      ensures r.Ok? ==> |r.value| <= length
      ensures Extends(old(store.cache), store.cache, Fuse.RemoteOf(bridge)) && store.dirty == old(store.dirty)
    {
      var size := (length % TWO_32) as u32;
      var data := store.ReadChunks(Fuse.RemoteOf(bridge), ino, offset, size);
      if data.Err? {
        return Err(Status(data.error));
      }
      var count := Min(|data.value|, length);
      assert data.value[..count] == data.value;
      r := Ok(data.value[..count]);
    }

    /** `write`: refused when the filesystem is read-only; otherwise the
        chunk loop, then the file's fresh information. The count is all of
        `buffer` as a `u32`; a chunk the bridge fails on (other than not
        found) fails the write and leaves the chunks before it written. */
    method Write(ino: Inode, offset: u64, buffer: seq<u8>) returns (r: Result<u32, WinError>, info: Option<FileInfo>, ghost upto: nat)
      requires offset as nat + |buffer| < TWO_64
      modifies store
      ensures WriteStop(offset, |buffer|) <= TWO_64
      ensures !writable ==>
        (r == Err(WriteProtected) && info == None && store.cache == old(store.cache) && store.dirty == old(store.dirty))
      ensures writable ==> (r.Ok? <==> StartsOk(old(store.State()), SourceOf(bridge), ino, offset, WriteStop(offset, |buffer|)))
      ensures writable && r.Ok? ==>
        (r.value as int == |buffer| % TWO_32 && info == InfoAfterWrite(getattr, ino)
         && store.State() == Written(old(store.State()), SourceOf(bridge), ino, offset, buffer, WriteStop(offset, |buffer|)))
      ensures writable && r.Err? ==>
        (StartChunk(offset) <= upto < WriteStop(offset, |buffer|) && info == None
         && StartsOk(old(store.State()), SourceOf(bridge), ino, offset, upto)
         && r.error.Status? && !r.error.error.NotFound?
         && Existing(old(store.State()), SourceOf(bridge), Key(ino, upto)) == Err(r.error.error)
         && store.State() == Written(old(store.State()), SourceOf(bridge), ino, offset, buffer, upto))
    {
      WriteStopInRange(offset as nat, |buffer|);
      upto := 0;
      info := None;
      if !writable {
        return Err(WriteProtected), info, upto;
      }
      var w;
      w, upto := store.WriteChunks(SourceOf(bridge), ino, offset, buffer);
      if w.Err? {
        return Err(Status(w.error)), info, upto;
      }
      info := InfoAfterWrite(getattr, ino);
      r := Ok((w.value % TWO_32) as u32);
    }
  }

  /** When the cache and the bridge serve a file, `read` fills the buffer
      with exactly its bytes at [offset, offset + length), clipped to its end
      (and to the 32-bit size `read_stitched` receives). */
  lemma ReadFillsFromFile(cache: map<ChunkId, seq<u8>>, bridge: Fuse.Bridge, ino: Inode, file: seq<u8>, offset: u64, length: nat)
    requires Serves(cache, Fuse.RemoteOf(bridge), ino, file)
    ensures StartChunk(offset) + Visited(offset, length % TWO_32) <= TWO_64
    ensures ReadStitched(ViewChunks(cache, Fuse.RemoteOf(bridge), ino, StartChunk(offset), Visited(offset, length % TWO_32)),
                         offset, length % TWO_32) == Ok(Slice(file, offset, length % TWO_32))
  {
    VisitedInRange(offset, (length % TWO_32) as u32);
    ReadServedFile(cache, Fuse.RemoteOf(bridge), ino, file, offset, length % TWO_32);
  }
}
