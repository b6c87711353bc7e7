/** The persistent chunk cache (crates/teleport-daemon/src/disk_cache.rs):
    an in-memory index of chunk files kept under a two-level directory
    layout, and a running total of the bytes they hold. The file system is
    modelled as a map from paths to contents; SHA-256 is a function passed
    in by the caller; I/O failures and the clock are parameters. */
module DiskCache {
  import opened Ints
  import opened Wrappers
  import opened Types
  import opened Collections

  /** A path as its components (`PathBuf::join` appends one). */
  type Path = seq<string>

  datatype DiskCacheEntry = DiskCacheEntry(filePath: Path, size: nat, lastAccessed: nat)

  datatype DiskCacheError = NoCacheDir | Io(message: string) | LockPoisoned

  function SizeOf(e: DiskCacheEntry): nat {
    e.size
  }

  function AccessTime(e: (ChunkId, DiskCacheEntry)): int {
    e.1.lastAccessed
  }

  /** The bytes hashed to place a chunk: inode then index, little-endian. */
  function ChunkKeyBytes(c: ChunkId): (r: seq<u8>)
    ensures |r| == 16
  {
    LeBytes64(c.inode) + LeBytes64(c.index)
  }

  /** `chunk_path` given the hex digest: two directory levels of two
      characters each, then the rest; the fallbacks apply only to a text
      shorter than four characters. */
  function PathForHex(dir: Path, hex: string): (p: Path)
    ensures |p| == |dir| + 3 && p[..|dir|] == dir
  {
    var dir1 := if |hex| >= 2 then hex[..2] else "00";
    var dir2 := if |hex| >= 4 then hex[2..4] else "00";
    var filename := if |hex| >= 4 then hex[4..] else hex;
    dir + [dir1, dir2, filename]
  }

  /** For a SHA-256 digest (32 bytes, 64 hex characters) the path splits the
      hex text into 2/2/60 characters, and the path determines the digest. */
  lemma ChunkPathSplits(dir: Path, digest: seq<u8>)
    requires |digest| == 32
    ensures var hex := ToHex(digest);
      var p := PathForHex(dir, hex);
      && |p[|dir|]| == 2 && |p[|dir| + 1]| == 2 && |p[|dir| + 2]| == 60
      && p[|dir|] + p[|dir| + 1] + p[|dir| + 2] == hex
      && FromHex(p[|dir|] + p[|dir| + 1] + p[|dir| + 2]) == digest
  {
    var hex := ToHex(digest);
    assert hex[..2] + hex[2..4] + hex[4..] == hex;
    HexRoundTrip(digest);
  }

  lemma ChunkPathInjective(dir: Path, d1: seq<u8>, d2: seq<u8>)
    requires |d1| == 32 && |d2| == 32
    requires PathForHex(dir, ToHex(d1)) == PathForHex(dir, ToHex(d2))
    ensures d1 == d2
  {
    ChunkPathSplits(dir, d1);
    ChunkPathSplits(dir, d2);
    var p := PathForHex(dir, ToHex(d1));
    assert FromHex(p[|dir|] + p[|dir| + 1] + p[|dir| + 2]) == d1;
  }

  /** What the cache holds: the index, the files and the byte counter. */
  datatype DiskState = DiskState(index: map<ChunkId, DiskCacheEntry>, files: map<Path, seq<u8>>, totalBytes: nat)

  /** Every indexed entry names its own chunk's file, which exists and has
      the recorded size. */
  ghost predicate FilesMatch(st: DiskState, path: ChunkId -> Path) {
    forall k :: k in st.index ==>
      st.index[k].filePath == path(k) && path(k) in st.files && |st.files[path(k)]| == st.index[k].size
  }

  /** The counter is the indexed bytes plus `untracked`: bytes found at
      start-up that were never indexed, and entries dropped from the index
      whose file could not be deleted. */
  ghost predicate Accounted(st: DiskState, untracked: nat) {
    st.totalBytes == untracked + SumOver(st.index, SizeOf)
  }

  /** Distinct chunks have distinct files (no SHA-256 collision). */
  ghost predicate Injective(path: ChunkId -> Path) {
    forall a: ChunkId, b: ChunkId :: path(a) == path(b) ==> a == b
  }

  /** An indexed entry's size never exceeds the counter. */
  lemma IndexedWithinTotal(st: DiskState, untracked: nat, c: ChunkId)
    requires Accounted(st, untracked) && c in st.index
    ensures st.index[c].size <= st.totalBytes
  {
    SumOverRemove(st.index, SizeOf, c);
  }

  ghost predicate Fits(st: DiskState, c: ChunkId) {
    c in st.index ==> st.index[c].size <= st.totalBytes
  }

  /** A successful `write`: the file is replaced, the index entry is
      (re)created with the current time, and the counter moves by the new
      size minus the old one (the subtraction is written saturating; while
      the counter invariant holds it never reaches below zero). */
  function WriteStep(st: DiskState, path: Path, c: ChunkId, data: seq<u8>, now: nat): (r: DiskState)
    ensures c in r.index && r.index[c] == DiskCacheEntry(path, |data|, now) && path in r.files && r.files[path] == data
    ensures r.index.Keys == st.index.Keys + {c}
    ensures forall k :: k in st.index && k != c ==> r.index[k] == st.index[k]
  {
    var oldSize := if c in st.index then st.index[c].size else 0;
    DiskState(st.index[c := DiskCacheEntry(path, |data|, now)], st.files[path := data], SatSub(st.totalBytes, oldSize) + |data|)
  }

  /** A write keeps the files and the counter in step with the index. */
  lemma WritePreserves(st: DiskState, path: ChunkId -> Path, c: ChunkId, data: seq<u8>, now: nat, untracked: nat)
    requires Injective(path) && FilesMatch(st, path) && Accounted(st, untracked)
    ensures Fits(st, c)
    ensures FilesMatch(WriteStep(st, path(c), c, data, now), path)
    ensures Accounted(WriteStep(st, path(c), c, data, now), untracked)
  {
    WriteKeepsFiles(st, path, c, data, now);
    WriteAccounted(st, c, path(c), data, now, untracked);
  }

  lemma WriteKeepsFiles(st: DiskState, path: ChunkId -> Path, c: ChunkId, data: seq<u8>, now: nat)
    requires Injective(path) && FilesMatch(st, path)
    ensures FilesMatch(WriteStep(st, path(c), c, data, now), path)
  {
    var r := WriteStep(st, path(c), c, data, now);
    forall k | k in r.index
      ensures r.index[k].filePath == path(k) && path(k) in r.files && |r.files[path(k)]| == r.index[k].size
    {
      if k != c {
        assert path(k) != path(c);
      }
    }
  }

  lemma WriteAccounted(st: DiskState, c: ChunkId, p: Path, data: seq<u8>, now: nat, untracked: nat)
    requires Accounted(st, untracked)
    ensures Fits(st, c)
    ensures Accounted(WriteStep(st, p, c, data, now), untracked)
  {
    var e := DiskCacheEntry(p, |data|, now);
    var r := WriteStep(st, p, c, data, now);
    var oldSize := if c in st.index then st.index[c].size else 0;
    assert oldSize <= st.totalBytes by {
      if c in st.index {
        IndexedWithinTotal(st, untracked, c);
      }
    }
    assert SumOver(r.index, SizeOf) + oldSize == SumOver(st.index, SizeOf) + |data| by {
      SumOverUpdate(st.index, SizeOf, c, e);
      assert r.index == st.index[c := e];
    }
    assert r.totalBytes == st.totalBytes - oldSize + |data|;
  }

  /** `read` when the file can be read: the data of an indexed chunk, with
      its access time refreshed; `None` for a chunk not indexed. */
  function ReadStep(st: DiskState, c: ChunkId, now: nat): (r: (DiskState, Option<seq<u8>>))
    ensures c !in st.index ==> r == (st, None)
  {
    if c in st.index && st.index[c].filePath in st.files then
      (st.(index := st.index[c := st.index[c].(lastAccessed := now)]), Some(st.files[st.index[c].filePath]))
    else (st, None)
  }

  /** A read changes only the chunk's access time, so the invariants hold. */
  lemma ReadPreserves(st: DiskState, path: ChunkId -> Path, c: ChunkId, now: nat, untracked: nat)
    requires FilesMatch(st, path) && Accounted(st, untracked)
    ensures FilesMatch(ReadStep(st, c, now).0, path) && Accounted(ReadStep(st, c, now).0, untracked)
    ensures ReadStep(st, c, now).0.totalBytes == st.totalBytes && ReadStep(st, c, now).0.files == st.files
    ensures ReadStep(st, c, now).0.index.Keys == st.index.Keys
  {
    if c in st.index {
      SumOverUpdate(st.index, SizeOf, c, st.index[c].(lastAccessed := now));
    }
  }

  /** After a write, a read of that chunk returns exactly the data written,
      and a read of any other indexed chunk returns what it returned before. */
  lemma WriteThenRead(st: DiskState, path: ChunkId -> Path, c: ChunkId, data: seq<u8>, now: nat, later: nat, other: ChunkId, untracked: nat)
    requires Injective(path) && FilesMatch(st, path) && Accounted(st, untracked)
    ensures Fits(st, c)
    ensures ReadStep(WriteStep(st, path(c), c, data, now), c, later).1 == Some(data)
    ensures other != c && other in st.index ==>
      ReadStep(WriteStep(st, path(c), c, data, now), other, later).1 == ReadStep(st, other, later).1
  {
    WritePreserves(st, path, c, data, now, untracked);
    if other != c && other in st.index {
      assert path(other) != path(c);
    }
  }

  /** `remove`: the index entry is taken out first; if deleting the file
      then fails the error is returned, the file stays and the counter is
      not decremented. */
  function RemoveStep(st: DiskState, c: ChunkId, ioOk: bool): (r: (DiskState, Result<bool, DiskCacheError>))
    ensures c !in r.0.index && r.0.index == st.index - {c}
  {
    if c !in st.index then (st, Ok(false))
    else if !ioOk then (st.(index := st.index - {c}), Err(Io("remove failed")))
    else (DiskState(st.index - {c}, st.files - {st.index[c].filePath}, SatSub(st.totalBytes, st.index[c].size)), Ok(true))
  }

  /** `remove` returns `Ok(true)` and frees the entry's bytes exactly when
      the chunk was indexed and its file could be deleted, and `Ok(false)`
      with nothing changed exactly when it was not indexed. */
  lemma RemoveOutcome(st: DiskState, c: ChunkId, ioOk: bool, untracked: nat)
    requires Accounted(st, untracked)
    ensures Fits(st, c)
    ensures RemoveStep(st, c, ioOk).1 == Ok(true) <==> c in st.index && ioOk
    ensures RemoveStep(st, c, ioOk).1 == Ok(false) <==> c !in st.index
    ensures c !in st.index ==> RemoveStep(st, c, ioOk).0 == st
    ensures c in st.index && ioOk ==> RemoveStep(st, c, ioOk).0.totalBytes == st.totalBytes - st.index[c].size
    ensures c in st.index && !ioOk ==> RemoveStep(st, c, ioOk).0.totalBytes == st.totalBytes
  {
    if c in st.index {
      IndexedWithinTotal(st, untracked, c);
    }
  }

  /** After `remove` the invariants hold again, with the bytes of a file
      that could not be deleted counted as untracked. */
  lemma RemovePreserves(st: DiskState, path: ChunkId -> Path, c: ChunkId, ioOk: bool, untracked: nat)
    requires Injective(path) && FilesMatch(st, path) && Accounted(st, untracked)
    ensures Fits(st, c)
    ensures FilesMatch(RemoveStep(st, c, ioOk).0, path)
    ensures Accounted(RemoveStep(st, c, ioOk).0, untracked + (if c in st.index && !ioOk then st.index[c].size else 0))
  {
    RemoveAccounted(st, c, ioOk, untracked);
    if c in st.index {
      IndexedWithinTotal(st, untracked, c);
      RemoveKeepsFiles(st, path, c, ioOk);
    }
  }

  /** The counter half of RemovePreserves, which needs no file invariant. */
  lemma RemoveAccounted(st: DiskState, c: ChunkId, ioOk: bool, untracked: nat)
    requires Accounted(st, untracked)
    ensures Fits(st, c)
    ensures Accounted(RemoveStep(st, c, ioOk).0, untracked + (if c in st.index && !ioOk then st.index[c].size else 0))
  {
    if c in st.index {
      IndexedWithinTotal(st, untracked, c);
      SumOverRemove(st.index, SizeOf, c);
    }
  }

  lemma RemoveKeepsFiles(st: DiskState, path: ChunkId -> Path, c: ChunkId, ioOk: bool)
    requires Injective(path) && FilesMatch(st, path) && c in st.index
    ensures FilesMatch(RemoveStep(st, c, ioOk).0, path)
  {
    var r := RemoveStep(st, c, ioOk).0;
    forall k | k in r.index
      ensures r.index[k].filePath == path(k) && path(k) in r.files && |r.files[path(k)]| == r.index[k].size
    {
      assert k != c && path(k) != path(c);
    }
  }

  /** `chunk_path`: SHA-256 of the chunk key, hex-encoded, split into two
      directory levels under the cache directory. */
  function ChunkPathIn(dir: Path, sha256: seq<u8> -> seq<u8>, c: ChunkId): Path {
    PathForHex(dir, ToHex(sha256(ChunkKeyBytes(c))))
  }

  /** `entries` lists exactly the entries of `index`, oldest access first. */
  ghost predicate ListsByAge(entries: seq<(ChunkId, DiskCacheEntry)>, index: map<ChunkId, DiskCacheEntry>) {
    && SortedBy(AccessTime, entries)
    && (forall i :: 0 <= i < |entries| ==> entries[i].0 in index && entries[i].1 == index[entries[i].0])
    && (forall c :: c in index ==> (c, index[c]) in entries)
  }

  /** The disk cache's invariant on its state, its chunk paths and its
      untracked bytes. */
  ghost predicate Consistent(st: DiskState, path: ChunkId -> Path, untracked: nat) {
    Injective(path) && FilesMatch(st, path) && Accounted(st, untracked)
  }

  class DiskCache {
    const cacheDir: Path
    /** The file of each chunk, fixed at construction. */
    const chunkPath: ChunkId -> Path
    var index: map<ChunkId, DiskCacheEntry>
    var files: map<Path, seq<u8>>
    var totalBytes: nat
    ghost var untracked: nat

    function State(): DiskState
      reads this
    {
      DiskState(index, files, totalBytes)
    }

    ghost predicate Valid()
      reads this
    {
      Consistent(State(), chunkPath, untracked)
    }

    /** `with_dir`: an empty index, and a counter holding the bytes of the
        chunk files already on disk (`scannedBytes`), which are not
        indexed. */
    constructor WithDir(cacheDir: Path, sha256: seq<u8> -> seq<u8>, scannedBytes: nat)
      requires forall a: ChunkId, b: ChunkId ::
        ChunkPathIn(cacheDir, sha256, a) == ChunkPathIn(cacheDir, sha256, b) ==> a == b
      ensures Valid() && index == map[] && files == map[] && totalBytes == scannedBytes
      ensures this.cacheDir == cacheDir
      ensures forall c :: chunkPath(c) == ChunkPathIn(cacheDir, sha256, c)
    {
      this.cacheDir := cacheDir;
      chunkPath := c => ChunkPathIn(cacheDir, sha256, c);
      index := map[];
      files := map[];
      totalBytes := scannedBytes;
      untracked := scannedBytes;
      new;
      SumOverEmpty(index, SizeOf);
    }

    predicate Contains(c: ChunkId)
      reads this
    {
      c in index
    }

    /** `write`: on an I/O failure the index and counter are unchanged. */
    method Write(c: ChunkId, data: seq<u8>, now: nat, ioOk: bool) returns (r: Result<(), DiskCacheError>)
      requires Valid()
      modifies this
      ensures Valid() && untracked == old(untracked)
      ensures Fits(old(State()), c)
      ensures !ioOk ==> r.Err? && State() == old(State())
      ensures ioOk ==> r == Ok(()) && State() == WriteStep(old(State()), chunkPath(c), c, data, now)
    {
      var st0 := State();
      WritePreserves(st0, chunkPath, c, data, now, untracked);
      if !ioOk {
        return Err(Io("write failed"));
      }
      var st := WriteStep(st0, chunkPath(c), c, data, now);
      index, files, totalBytes := st.index, st.files, st.totalBytes;
      assert State() == st;
      r := Ok(());
    }

    /** `read`: `Ok(None)` for a chunk not indexed; an error if its file
        cannot be read; else its data, refreshing its access time. */
    method Read(c: ChunkId, now: nat, ioOk: bool) returns (r: Result<Option<seq<u8>>, DiskCacheError>)
      requires Valid()
      modifies this
      ensures Valid() && untracked == old(untracked)
      ensures c !in old(index) ==> r == Ok(None) && State() == old(State())
      ensures c in old(index) && !ioOk ==> r.Err? && State() == old(State())
      ensures c in old(index) && ioOk ==> State() == ReadStep(old(State()), c, now).0 && r == Ok(ReadStep(old(State()), c, now).1)
    {
      ReadPreserves(State(), chunkPath, c, now, untracked);
      if c !in index {
        return Ok(None);
      }
      if !ioOk {
        return Err(Io("read failed"));
      }
      var res := ReadStep(State(), c, now);
      index := res.0.index;
      r := Ok(res.1);
    }

    /** `remove`: see RemoveStep. */
    method Remove(c: ChunkId, ioOk: bool) returns (r: Result<bool, DiskCacheError>)
      requires Valid()
      modifies this
      ensures Valid() && Fits(old(State()), c)
      ensures untracked == old(untracked) + (if c in old(index) && !ioOk then old(index)[c].size else 0)
      ensures State() == RemoveStep(old(State()), c, ioOk).0 && r == RemoveStep(old(State()), c, ioOk).1
    {
      RemovePreserves(State(), chunkPath, c, ioOk, untracked);
      var res := RemoveStep(State(), c, ioOk);
      if c in index && !ioOk {
        untracked := untracked + index[c].size;
      }
      index, files, totalBytes := res.0.index, res.0.files, res.0.totalBytes;
      r := res.1;
    }

    /** All index entries, each once, in the order the map is visited. */
    method Entries() returns (entries: seq<(ChunkId, DiskCacheEntry)>)
      ensures |entries| == |index|
      ensures forall i :: 0 <= i < |entries| ==> entries[i].0 in index && entries[i].1 == index[entries[i].0]
      ensures forall c :: c in index ==> (c, index[c]) in entries
    {
      entries := [];
      var keys := index.Keys;
      while keys != {}
        invariant keys <= index.Keys
        invariant |entries| + |keys| == |index.Keys|
        invariant forall i :: 0 <= i < |entries| ==> entries[i].0 in index && entries[i].1 == index[entries[i].0]
        invariant forall c :: c in index && c !in keys ==> (c, index[c]) in entries
        invariant forall i :: 0 <= i < |entries| ==> entries[i].0 !in keys
        decreases |keys|
      {
        var c :| c in keys;
        entries := entries + [(c, index[c])];
        keys := keys - {c};
      }
    }

    /** `entries_by_access_time`: every entry once, oldest access first. */
    method EntriesByAccessTime() returns (r: seq<(ChunkId, DiskCacheEntry)>)
      ensures |r| == |index| && ListsByAge(r, index)
    {
      var entries := Entries();
      r := SortBy(AccessTime, entries);
      forall i | 0 <= i < |r| ensures r[i].0 in index && r[i].1 == index[r[i].0] {
        assert r[i] in multiset(entries);
      }
      forall c | c in index ensures (c, index[c]) in r {
        assert (c, index[c]) in multiset(entries);
      }
    }

    /** `clear`: remove every indexed chunk, ignoring errors; `failing`
        are the chunks whose file cannot be deleted. The counter drops by
        the sizes of exactly the other chunks. */
    method Clear(failing: set<ChunkId>)
      requires Valid()
      modifies this
      ensures Valid() && index == map[]
      ensures totalBytes + SumOver(Restrict(old(index), old(index).Keys - failing), SizeOf) == old(totalBytes)
    {
      var st, u := RemoveAll(State(), chunkPath, untracked, failing);
      index, files, totalBytes := st.index, st.files, st.totalBytes;
      untracked := u;
    }
  }

  /** The loop of `clear`, one `remove` per indexed chunk. */
  method RemoveAll(st0: DiskState, path: ChunkId -> Path, ghost u0: nat, failing: set<ChunkId>) returns (st: DiskState, ghost u: nat)
    requires Injective(path) && FilesMatch(st0, path) && Accounted(st0, u0)
    ensures FilesMatch(st, path) && Accounted(st, u) && st.index == map[]
    ensures st.totalBytes + SumOver(Restrict(st0.index, st0.index.Keys - failing), SizeOf) == st0.totalBytes
  {
    st, u := st0, u0;
    ghost var removed: set<ChunkId> := {};
    SumOverEmpty(Restrict(st0.index, removed - failing), SizeOf);
    while st.index.Keys != {}
      invariant ClearInv(st0, st, path, u, removed, failing)
      decreases |st.index.Keys|
    {
      var c :| c in st.index.Keys;
      var ok := c !in failing;
      ClearInvStep(st0, st, path, u, removed, failing, c, ok);
      u := u + (if ok then 0 else st.index[c].size);
      st := RemoveStep(st, c, ok).0;
      removed := removed + {c};
    }
    assert removed == st0.index.Keys;
  }

  /** What holds after `clear` has removed the chunks in `removed`. */
  ghost predicate ClearInv(st0: DiskState, st: DiskState, path: ChunkId -> Path, u: nat, removed: set<ChunkId>, failing: set<ChunkId>) {
    && Injective(path) && FilesMatch(st, path) && Accounted(st, u)
    && st.index.Keys <= st0.index.Keys && removed == st0.index.Keys - st.index.Keys
    && (forall k :: k in st.index ==> st.index[k] == st0.index[k])
    && st.totalBytes + SumOver(Restrict(st0.index, removed - failing), SizeOf) == st0.totalBytes
  }

  lemma ClearInvStep(st0: DiskState, st: DiskState, path: ChunkId -> Path, u: nat, removed: set<ChunkId>, failing: set<ChunkId>, c: ChunkId, ok: bool)
    requires ClearInv(st0, st, path, u, removed, failing) && c in st.index && ok == (c !in failing)
    ensures Fits(st, c)
    ensures ClearInv(st0, RemoveStep(st, c, ok).0, path, u + (if ok then 0 else st.index[c].size), removed + {c}, failing)
    ensures |RemoveStep(st, c, ok).0.index.Keys| < |st.index.Keys|
  {
    RemovePreserves(st, path, c, ok, u);
    ClearCounter(st0, st, u, removed, failing, c, ok);
    RemoveShrinks(st.index, c);
  }

  /** The counter half of ClearInvStep. */
  lemma ClearCounter(st0: DiskState, st: DiskState, u: nat, removed: set<ChunkId>, failing: set<ChunkId>, c: ChunkId, ok: bool)
    requires Accounted(st, u) && c in st.index && c in st0.index && st.index[c] == st0.index[c]
    requires c !in removed && ok == (c !in failing)
    requires st.totalBytes + SumOver(Restrict(st0.index, removed - failing), SizeOf) == st0.totalBytes
    ensures RemoveStep(st, c, ok).0.totalBytes + SumOver(Restrict(st0.index, (removed + {c}) - failing), SizeOf) == st0.totalBytes
  {
    RemoveOutcome(st, c, ok, u);
    ClearStep(st0.index, SizeOf, removed, failing, c);
  }

  /** One iteration of `clear`: the sum over the removed, non-failing chunks
      grows by the chunk's size exactly when its deletion succeeds. */
  lemma ClearStep<K, V>(m: map<K, V>, f: V -> nat, removed: set<K>, failing: set<K>, c: K)
    requires c in m && c !in removed
    ensures SumOver(Restrict(m, (removed + {c}) - failing), f) ==
      SumOver(Restrict(m, removed - failing), f) + (if c in failing then 0 else f(m[c]))
  {
    if c !in failing {
      SumOverRestrictAdd(m, f, removed - failing, c);
      assert (removed - failing) + {c} == (removed + {c}) - failing;
    } else {
      assert removed - failing == (removed + {c}) - failing;
    }
  }
}
