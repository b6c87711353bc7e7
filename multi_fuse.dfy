/** The multi-share FUSE front end (crates/teleport-daemon/src/multi_fuse.rs):
    a virtual root directory whose entries are the mounted shares, inodes
    namespaced by share index, and the read and write paths through the chunk
    cache and the sync engine's dirty set. */
module MultiFuse {
  import opened Ints
  import opened Wrappers
  import opened Types
  import opened Mount
  import Errors
  import Fuse
  import Collections
  import MultiHost

  /** The kernel's root inode, which this filesystem shows as the virtual root. */
  const FUSE_ROOT_INODE: u64 := 1

  /** One entry of the share list. */
  datatype MountedShare = MountedShare(info: MultiHost.ShareInfo, index: u16, mountName: string, connected: bool)

  // ---------------------------------------------------------------------
  // Inode namespacing

  predicate IsVirtualRootInode(ino: u64) {
    ino == FUSE_ROOT_INODE
  }

  /** `pack_inode`: the share index over the low 48 bits of the local inode. */
  function PackInode(share: u16, local: Inode): (r: u64)
    ensures r / TWO_48 == share && r % TWO_48 == local % TWO_48
  {
    ToPacked(GlobalInode(share, local))
  }

  /** `unpack_inode`: the share index and the local inode. */
  function UnpackInode(ino: u64): (r: (u16, Inode))
    ensures r.1 < TWO_48 && r.0 * TWO_48 + r.1 == ino
  {
    var g := FromPacked(ino);
    (g.shareIndex, g.localInode)
  }

  /** Unpacking undoes packing for local inodes of 48 bits, and packing undoes unpacking. */
  lemma PackRoundTrips(share: u16, local: Inode, ino: u64)
    ensures local < TWO_48 ==> UnpackInode(PackInode(share, local)) == (share, local)
    ensures PackInode(UnpackInode(ino).0, UnpackInode(ino).1) == ino
  {
    if local < TWO_48 {
      PackRoundTrip(GlobalInode(share, local));
    }
    UnpackRoundTrip(ino);
  }

  /** Only share 0's local inode 1 packs to the virtual root; in particular
      the root directory of a share at index 0 is indistinguishable from the
      virtual root, which is why share indices start at 1. */
  lemma VirtualRootOnlyShareZero(share: u16, local: Inode)
    ensures IsVirtualRootInode(PackInode(share, local)) <==> share == 0 && local % TWO_48 == 1
  {
  }

  /** The packing and root-detection tests. */
  lemma PackingExamples()
    ensures UnpackInode(PackInode(5, 12345)) == (5, 12345)
    ensures IsVirtualRootInode(FUSE_ROOT_INODE) && !IsVirtualRootInode(2)
    ensures !IsVirtualRootInode(PackInode(1, 1)) && !IsVirtualRootInode(PackInode(0, 2))
  {
    PackRoundTrips(5, 12345, 0);
    VirtualRootOnlyShareZero(1, 1);
    VirtualRootOnlyShareZero(0, 2);
  }

  /** `to_fuser_attr`: the single-share conversion with the inode packed
      under the share's index. */
  function ToFuserAttr(attr: FileAttr, share: u16): (r: Fuse.FuserAttr)
    ensures r.ino == PackInode(share, attr.inode)
    ensures attr.inode < TWO_48 ==> UnpackInode(r.ino) == (share, attr.inode)
    ensures r.(ino := attr.inode) == Fuse.ToFuserAttr(attr)
  {
    PackRoundTrips(share, attr.inode, 0);
    Fuse.ToFuserAttr(attr).(ino := PackInode(share, attr.inode))
  }

  // ---------------------------------------------------------------------
  // Mount names

  /** The name a share gets when none is given: `host_name` + "_" + `name`,
      or just `name` for a share with no host name. */
  function BaseName(info: MultiHost.ShareInfo): string {
    if |info.hostName| == 0 then info.name else info.hostName + "_" + info.name
  }

  /** The `c`-th name tried: the base name, then the base name suffixed `_1`, `_2`, ... */
  function Candidate(base: string, c: nat): (r: string)
    ensures c == 0 ==> r == base
    ensures c > 0 ==> |r| > |base| + 1 && r[..|base|] == base && r[|base|] == '_' && r[|base| + 1..] == NatToString(c)
  {
    if c == 0 then base else base + "_" + NatToString(c)
  }

  /** Different attempts try different names. */
  lemma CandidateInjective(base: string, a: nat, b: nat)
    requires Candidate(base, a) == Candidate(base, b)
    ensures a == b
  {
    if a > 0 && b > 0 {
      NatToStringInjective(a, b);
    }
  }

  /** Attempt `c` is the first free name: every earlier one is taken. */
  ghost predicate FirstFree(base: string, taken: set<string>, c: nat) {
    Candidate(base, c) !in taken && forall j | 0 <= j < c :: Candidate(base, j) in taken
  }

  /** The first free name is unique. */
  lemma FirstFreeUnique(base: string, taken: set<string>, a: nat, b: nat)
    requires FirstFree(base, taken, a) && FirstFree(base, taken, b)
    ensures a == b
  {
  }

  ghost function Tried(base: string, c: nat): set<string> {
    set j | 0 <= j < c :: Candidate(base, j)
  }

  lemma TriedCount(base: string, c: nat)
    ensures |Tried(base, c)| == c
    ensures Candidate(base, c) !in Tried(base, c)
    decreases c
  {
    if Candidate(base, c) in Tried(base, c) {
      var j :| 0 <= j < c && Candidate(base, j) == Candidate(base, c);
      CandidateInjective(base, j, c);
    }
    if c > 0 {
      TriedCount(base, c - 1);
      assert Tried(base, c) == Tried(base, c - 1) + {Candidate(base, c - 1)};
    }
  }

  /** The naming loop of `add_share_with_index`: try the base name, then
      `base_1`, `base_2`, ... until one is not taken. It ends because the
      names tried are all different and only finitely many are taken. */
  method UniqueMountName(base: string, taken: set<string>) returns (name: string, ghost c: nat)
    ensures name == Candidate(base, c) && FirstFree(base, taken, c)
  {
    name := base;
    var counter: nat := 1;
    c := 0;
    while name in taken
      invariant counter == c + 1 && name == Candidate(base, c)
      invariant forall j | 0 <= j < c :: Candidate(base, j) in taken
      invariant Tried(base, c) <= taken
      decreases |taken| - c
    {
      TriedCount(base, c);
      TriedCount(base, c + 1);
      assert Tried(base, c + 1) == Tried(base, c) + {name};
      Collections.SubsetCard(Tried(base, c + 1), taken);
      name := base + "_" + NatToString(counter);
      counter := counter + 1;
      c := c + 1;
    }
  }

  // ---------------------------------------------------------------------
  // The share list

  /** The entry that pads position `i` of the share list: a disconnected,
      read-only share with an empty mount name, whose index is `i` cast to
      16 bits. */
  function Placeholder(i: nat): (m: MountedShare)
    ensures m.index as int == i % TWO_16 && !m.connected && m.mountName == "" && !m.info.writable
  {
    MountedShare(MultiHost.ShareInfo([0, 0, 0, 0, 0, 0, 0, 0], "_placeholder_", "", ROOT_INODE, false), (i % TWO_16) as u16, "", false)
  }

  /** The share list padded with placeholders to length `n`. */
  function Padded(shares: seq<MountedShare>, n: nat): (r: seq<MountedShare>)
    ensures |r| == Max(|shares|, n)
    ensures forall i | 0 <= i < |r| :: r[i] == if i < |shares| then shares[i] else Placeholder(i)
  {
    if |shares| >= n then shares
    else shares + seq(n - |shares|, j requires 0 <= j < n - |shares| => Placeholder(|shares| + j))
  }

  lemma PaddedStep(shares: seq<MountedShare>, n: nat)
    requires |shares| <= n
    ensures Padded(shares, n + 1) == Padded(shares, n) + [Placeholder(n)]
  {
    var a := Padded(shares, n + 1);
    var b := Padded(shares, n) + [Placeholder(n)];
    assert |a| == |b|;
    forall i | 0 <= i < |a| ensures a[i] == b[i] { }
  }

  /** The share list after `add_share_with_index(info, index, _)` chose `name`. */
  function WithShare(shares: seq<MountedShare>, info: MultiHost.ShareInfo, index: u16, name: string): (r: seq<MountedShare>)
    ensures |r| == Max(|shares|, index as int + 1)
    ensures r[index] == MountedShare(info, index, name, true)
    ensures forall i | 0 <= i < |r| && i != index as int :: r[i] == if i < |shares| then shares[i] else Placeholder(i)
  {
    Padded(shares, index as int + 1)[index := MountedShare(info, index, name, true)]
  }

  /** Every entry sits at its own index. */
  predicate Indexed(shares: seq<MountedShare>) {
    forall i | 0 <= i < |shares| :: shares[i].index as int == i
  }

  lemma WithShareIndexed(shares: seq<MountedShare>, info: MultiHost.ShareInfo, index: u16, name: string)
    requires Indexed(shares)
    ensures Indexed(WithShare(shares, info, index, name))
  {
  }

  /** The share-list tests: a share added at index 1 to an empty list sits
      behind a placeholder at 0; a second share with the same base name is
      mounted under `<base>_1`. */
  lemma AddShareExamples(info: MultiHost.ShareInfo, name: string)
    ensures var r := WithShare([], info, 1, name);
      |r| == 2 && r[0] == Placeholder(0) && r[1] == MountedShare(info, 1, name, true)
    ensures forall c: nat | FirstFree(BaseName(info), {BaseName(info)}, c) :: Candidate(BaseName(info), c) == BaseName(info) + "_1"
  {
    forall c: nat | FirstFree(BaseName(info), {BaseName(info)}, c)
      ensures Candidate(BaseName(info), c) == BaseName(info) + "_1"
    {
      assert Candidate(BaseName(info), 1) == BaseName(info) + "_1";
      assert FirstFree(BaseName(info), {BaseName(info)}, 1);
      FirstFreeUnique(BaseName(info), {BaseName(info)}, c, 1);
    }
  }

  // ---------------------------------------------------------------------
  // Chunks of a share

  /** `connection_manager.read_chunk_blocking(share, chunk)`: the host's
      bytes, or nothing when the request fails. */
  type HostRead = (u16, ChunkId) -> Option<seq<u8>>

  /** Every failure reaches FUSE as EIO. */
  function HostAnswer(hostRead: HostRead, share: u16, c: ChunkId): (r: Result<seq<u8>, int>)
    ensures r.Err? ==> r.error == Errors.EIO
  {
    match hostRead(share, c)
    case Some(data) => Ok(data)
    case None => Err(Errors.EIO)
  }

  /** The chunk source of the cache keyed by the packed inode: a key names
      its share and the local chunk. */
  function RemoteOf(hostRead: HostRead): (remote: ChunkId -> Result<seq<u8>, int>)
    ensures forall k :: remote(k) == HostAnswer(hostRead, UnpackInode(k.inode).0, ChunkId(UnpackInode(k.inode).1, k.index))
  {
    (k: ChunkId) => HostAnswer(hostRead, UnpackInode(k.inode).0, ChunkId(UnpackInode(k.inode).1, k.index))
  }

  /** `write` treats ENOENT from `fetch_chunk` as a chunk not written yet. */
  function SourceOf(hostRead: HostRead): Source<int> {
    Source(RemoteOf(hostRead), (e: int) => e == Errors.ENOENT)
  }

  /** `fetch_chunk` reports every failure as EIO, so the write's ENOENT
      fallback never applies: a chunk the host cannot serve fails the write. */
  lemma NothingMissing(hostRead: HostRead, k: ChunkId)
    ensures RemoteOf(hostRead)(k).Err? ==> !SourceOf(hostRead).missing(RemoteOf(hostRead)(k).error)
  {
  }

  /** `fetch_chunk` as written: the cache key is the share-local chunk id. */
  function FetchAsWritten(cache: map<ChunkId, seq<u8>>, hostRead: HostRead, share: u16, c: ChunkId)
    : (r: (map<ChunkId, seq<u8>>, Result<seq<u8>, int>))
    ensures c in cache ==> r == (cache, Ok(cache[c]))
    ensures c !in cache ==> r.1 == HostAnswer(hostRead, share, c)
  {
    if c in cache then (cache, Ok(cache[c]))
    else match hostRead(share, c)
      case Some(data) => (cache[c := data], Ok(data))
      case None => (cache, Err(Errors.EIO))
  }

  /** Two shares whose chunk 0 of local inode 5 differ: share 1 serves [1],
      share 2 serves [2]. Every share numbers its inodes from 1, so such
      collisions are the rule. Keyed by the local chunk id, share 2's read
      after share 1's answers share 1's bytes. */
  lemma SharesAliasAsWritten()
    ensures var hostRead: HostRead := (s: u16, c: ChunkId) => if s == 1 then Some([1 as u8]) else Some([2 as u8]);
      var c := ChunkId(5, 0);
      var first := FetchAsWritten(map[], hostRead, 1, c);
      FetchAsWritten(first.0, hostRead, 2, c).1 == Ok([1]) && HostAnswer(hostRead, 2, c) == Ok([2])
  {
  }

  /** The write path as written stores the patched chunk under the local
      chunk id too, so bytes share 1 wrote to chunk 0 of its inode 5 are what
      share 2 then reads for its own inode 5. */
  lemma WriteAliasesAsWritten(written: seq<u8>)
    ensures var hostRead: HostRead := (s: u16, c: ChunkId) => if s == 1 then Some([1 as u8]) else Some([2 as u8]);
      var c := ChunkId(5, 0);
      FetchAsWritten(map[c := written], hostRead, 2, c).1 == Ok(written) && HostAnswer(hostRead, 2, c) == Ok([2])
  {
  }

  /** Keyed by the packed inode, a chunk one share writes is never what another
      share reads: the other share's read sees the cache as it was. */
  lemma WritesApart(cache: map<ChunkId, seq<u8>>, hostRead: HostRead, a: u16, b: u16, local: Inode, idx: u64, written: seq<u8>)
    requires a != b && local < TWO_48
    ensures FetchStep(cache[ChunkId(PackInode(a, local), idx) := written], RemoteOf(hostRead), ChunkId(PackInode(b, local), idx)).1
      == FetchStep(cache, RemoteOf(hostRead), ChunkId(PackInode(b, local), idx)).1
  {
    PackRoundTrips(a, local, 0);
    PackRoundTrips(b, local, 0);
    assert ChunkId(PackInode(a, local), idx) != ChunkId(PackInode(b, local), idx);
  }

  /** Keyed by the packed inode, the same two reads each get their own share's bytes. */
  lemma SharesApart()
    ensures var hostRead: HostRead := (s: u16, c: ChunkId) => if s == 1 then Some([1 as u8]) else Some([2 as u8]);
      var first := FetchStep(map[], RemoteOf(hostRead), ChunkId(PackInode(1, 5), 0));
      first.1 == Ok([1]) && FetchStep(first.0, RemoteOf(hostRead), ChunkId(PackInode(2, 5), 0)).1 == Ok([2])
  {
    PackRoundTrips(1, 5, 0);
    PackRoundTrips(2, 5, 0);
    assert PackInode(1, 5) != PackInode(2, 5);
  }

  /** In general: while the cache holds only what the host served, a read of
      chunk `idx` of local inode `local` in `share` gets exactly that share's
      answer. */
  lemma ReadsOwnShare(cache: map<ChunkId, seq<u8>>, hostRead: HostRead, share: u16, local: Inode, idx: u64)
    requires local < TWO_48 && Extends(map[], cache, RemoteOf(hostRead))
    ensures FetchStep(cache, RemoteOf(hostRead), ChunkId(PackInode(share, local), idx)).1
      == HostAnswer(hostRead, share, ChunkId(local, idx))
  {
    PackRoundTrips(share, local, 0);
    ExtendsKeepsView(map[], cache, RemoteOf(hostRead), ChunkId(PackInode(share, local), idx));
  }

  // ---------------------------------------------------------------------
  // The filesystem

  /** What the kernel receives for a read or a write. */
  datatype ReadReply = Data(bytes: seq<u8>) | ReadErr(errno: int)
  datatype WriteReply = WrittenCount(count: u32) | WriteErr(errno: int)

  function ReadReplyOf(r: Result<seq<u8>, int>): (reply: ReadReply)
    ensures r.Ok? <==> reply.Data?
    ensures r.Ok? ==> reply.bytes == r.value
    ensures r.Err? ==> reply.errno == r.error
  {
    match r
    case Ok(bytes) => Data(bytes)
    case Err(e) => ReadErr(e)
  }

  /** `MultiShareFS`: the share list, the name of each mounted share, and the
      chunk cache with the dirty set, keyed by packed inode. */
  class MultiShareFs {
    const writable: bool
    const hostRead: HostRead
    const store: ChunkStore<int>
    var shares: seq<MountedShare>
    var nameToIndex: map<string, u16>

    constructor(writable: bool, hostRead: HostRead)
      ensures this.writable == writable && this.hostRead == hostRead
      ensures shares == [] && nameToIndex == map[]
      ensures fresh(store) && store.cache == map[] && store.dirty == map[]
    {
      this.writable := writable;
      this.hostRead := hostRead;
      store := new ChunkStore<int>();
      shares := [];
      nameToIndex := map[];
    }

    /** `lookup` in the virtual root: the root inode of the connected share
        that carries the name, if any. */
    function RootEntry(name: string): (r: Option<u64>)
      reads this
    {
      if name in nameToIndex && nameToIndex[name] as int < |shares| && shares[nameToIndex[name]].connected
      then Some(PackInode(shares[nameToIndex[name]].index, ROOT_INODE))
      else None
    }

    /** `add_share_with_index`: choose the mount name (the given one, else the
        first free candidate), map it to `index`, pad the list with
        placeholders up to `index` and put the share, connected, at `index`.
        Looking the name up in the virtual root then finds the share's root. */
    method AddShareWithIndex(info: MultiHost.ShareInfo, index: u16, mountName: Option<string>)
      returns (ghost name: string, ghost counter: nat)
      modifies this
      ensures mountName.Some? ==> name == mountName.value
      ensures mountName.None? ==>
        (name == Candidate(BaseName(info), counter) && FirstFree(BaseName(info), old(nameToIndex).Keys, counter))
      ensures nameToIndex == old(nameToIndex)[name := index]
      ensures shares == WithShare(old(shares), info, index, name)
      ensures RootEntry(name) == Some(PackInode(index, ROOT_INODE))
    {
      var chosen: string;
      if mountName.Some? {
        chosen := mountName.value;
        counter := 0;
      } else {
        chosen, counter := UniqueMountName(BaseName(info), nameToIndex.Keys);
      }
      name := chosen;
      nameToIndex := nameToIndex[chosen := index];
      ghost var before := shares;
      while |shares| <= index as int
        invariant |before| <= |shares| <= Max(|before|, index as int + 1)
        invariant shares == Padded(before, |shares|)
        invariant nameToIndex == old(nameToIndex)[chosen := index]
        decreases index as int + 1 - |shares|
      {
        PaddedStep(before, |shares|);
        shares := shares + [Placeholder(|shares|)];
      }
      shares := shares[index := MountedShare(info, index, chosen, true)];
    }

    /** `add_share`: the next index is the list's length, truncated to 16 bits. */
    method AddShare(info: MultiHost.ShareInfo, mountName: Option<string>) returns (ghost name: string, ghost counter: nat)
      modifies this
      ensures var index := (|old(shares)| % TWO_16) as u16;
        nameToIndex == old(nameToIndex)[name := index] && shares == WithShare(old(shares), info, index, name)
      ensures mountName.Some? ==> name == mountName.value
      ensures mountName.None? ==>
        (name == Candidate(BaseName(info), counter) && FirstFree(BaseName(info), old(nameToIndex).Keys, counter))
    {
      var index := (|shares| % TWO_16) as u16;
      name, counter := AddShareWithIndex(info, index, mountName);
    }

    /** `remove_share`: unmap the entry's name and mark it disconnected; an
        index past the end changes nothing. */
    method RemoveShare(index: u16)
      modifies this
      ensures index as int < |old(shares)| ==>
        nameToIndex == old(nameToIndex) - {old(shares)[index].mountName}
        && shares == old(shares)[index := old(shares)[index].(connected := false)]
        && RootEntry(old(shares)[index].mountName) == None
      ensures index as int >= |old(shares)| ==> nameToIndex == old(nameToIndex) && shares == old(shares)
    {
      if index as int < |shares| {
        var share := shares[index];
        nameToIndex := nameToIndex - {share.mountName};
        shares := shares[index := share.(connected := false)];
      }
    }

    /** Why `write` refuses before touching any chunk: the virtual root is a
        directory; a read-only filesystem, or a share listed as read-only,
        takes no writes. An inode whose share index is past the list passes. */
    function WriteRefusal(ino: u64): (r: Option<int>)
      reads this
    {
      if IsVirtualRootInode(ino) then Some(Errors.EISDIR)
      else if !writable then Some(Errors.EROFS)
      else
        var share := UnpackInode(ino).0;
        if share as int < |shares| && !shares[share].info.writable then Some(Errors.EROFS)
        else None
    }

    /** `read`: EISDIR for the virtual root; otherwise `read_stitched` over
        what each visited chunk's read sees in the cache as it was. */
    method Read(ino: u64, offset: u64, size: u32) returns (reply: ReadReply)
      modifies store
      ensures StartChunk(offset) + Visited(offset, size) <= TWO_64
      ensures IsVirtualRootInode(ino) ==> (reply == ReadErr(Errors.EISDIR) && store.cache == old(store.cache))
      ensures !IsVirtualRootInode(ino) ==>
        reply == ReadReplyOf(ReadStitched(ViewChunks(old(store.cache), RemoteOf(hostRead), ino, StartChunk(offset),
                                                     Visited(offset, size)), offset, size))
        && Extends(old(store.cache), store.cache, RemoteOf(hostRead))
      ensures store.dirty == old(store.dirty)
    {
      VisitedInRange(offset, size);
      if IsVirtualRootInode(ino) {
        return ReadErr(Errors.EISDIR);
      }
      var r := store.ReadChunks(RemoteOf(hostRead), ino, offset, size);
      reply := ReadReplyOf(r);
    }

    /** `write`: the refusals, then the chunk loop. The reply counts all of
        `data` (as a `u32`); a chunk the host cannot serve fails the write
        with EIO and leaves the chunks before it written. */
    method Write(ino: u64, offset: u64, data: seq<u8>) returns (reply: WriteReply, ghost upto: nat)
      requires offset as nat + |data| < TWO_64
      modifies store
      ensures WriteStop(offset, |data|) <= TWO_64
      ensures WriteRefusal(ino).Some? ==>
        (reply == WriteErr(WriteRefusal(ino).value) && store.cache == old(store.cache) && store.dirty == old(store.dirty))
      ensures WriteRefusal(ino).None? ==>
        (reply.WrittenCount? <==> StartsOk(old(store.State()), SourceOf(hostRead), ino, offset, WriteStop(offset, |data|)))
      ensures WriteRefusal(ino).None? && reply.WrittenCount? ==>
        (reply.count as int == |data| % TWO_32
         && store.State() == Written(old(store.State()), SourceOf(hostRead), ino, offset, data, WriteStop(offset, |data|)))
      ensures WriteRefusal(ino).None? && reply.WriteErr? ==>
        (reply.errno == Errors.EIO
         && StartChunk(offset) <= upto < WriteStop(offset, |data|)
         && StartsOk(old(store.State()), SourceOf(hostRead), ino, offset, upto)
         && store.State() == Written(old(store.State()), SourceOf(hostRead), ino, offset, data, upto))
    {
      WriteStopInRange(offset as nat, |data|);
      upto := 0;
      if IsVirtualRootInode(ino) {
        return WriteErr(Errors.EISDIR), upto;
      }
      if !writable {
        return WriteErr(Errors.EROFS), upto;
      }
      var (share, _) := UnpackInode(ino);
      if share as int < |shares| && !shares[share].info.writable {
        return WriteErr(Errors.EROFS), upto;
      }
      var r;
      r, upto := store.WriteChunks(SourceOf(hostRead), ino, offset, data);
      if r.Err? {
        NothingMissing(hostRead, Key(ino, upto));
        return WriteErr(r.error), upto;
      }
      reply := WrittenCount((r.value % TWO_32) as u32);
    }
  }
}
