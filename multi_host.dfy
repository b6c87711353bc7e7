/** The host that serves several shared folders
    (crates/teleport-daemon/src/multi_host.rs): the share configuration and
    its builders, one inode table per share, the share list a client can
    ask for, the capabilities announced at the handshake, and the routing
    of each request to the default share. Random share ids are parameters. */
module MultiHost {
  import opened Ints
  import opened Wrappers
  import opened Types
  import Errors
  import Paths
  import Collections
  import Host

  // ---------------------------------------------------------------------
  // Configuration

  datatype SharedFolder = SharedFolder(id: ShareId, path: string, name: string, writable: bool)

  /** `SharedFolder::new`, with the freshly generated id passed in: shares
      are writable unless made read-only. */
  function NewSharedFolder(id: ShareId, path: string, name: string): (f: SharedFolder)
    ensures f.id == id && f.path == path && f.name == name && f.writable
  {
    SharedFolder(id, path, name, true)
  }

  /** `read_only`: the same share without write access. */
  function ReadOnly(f: SharedFolder): (r: SharedFolder)
    ensures !r.writable
    ensures r.id == f.id && r.path == f.path && r.name == f.name
  {
    f.(writable := false)
  }

  datatype MultiHostConfig = MultiHostConfig(
    bindAddr: string, bindPort: nat, maxConnections: nat, hostName: string, shares: seq<SharedFolder>)

  const DEFAULT_BIND_ADDR: string := "0.0.0.0"
  const DEFAULT_PORT: nat := 4433
  const DEFAULT_MAX_CONNECTIONS: nat := 10
  const FALLBACK_HOST_NAME: string := "wormhole-host"

  /** `MultiHostConfig::default`, given what `hostname::get` returned. */
  function DefaultConfig(hostname: Option<string>): (c: MultiHostConfig)
    ensures c.bindPort == DEFAULT_PORT && c.maxConnections == DEFAULT_MAX_CONNECTIONS
    ensures c.shares == []
    ensures c.hostName == hostname.GetOr(FALLBACK_HOST_NAME)
  {
    MultiHostConfig(DEFAULT_BIND_ADDR, DEFAULT_PORT, DEFAULT_MAX_CONNECTIONS, hostname.GetOr(FALLBACK_HOST_NAME), [])
  }

  /** `add_share`: the share goes last; everything else stays. */
  function AddShare(c: MultiHostConfig, f: SharedFolder): (r: MultiHostConfig)
    ensures |r.shares| == |c.shares| + 1 && r.shares[|c.shares|] == f
    ensures r.shares[..|c.shares|] == c.shares
    ensures r.bindAddr == c.bindAddr && r.bindPort == c.bindPort
    ensures r.maxConnections == c.maxConnections && r.hostName == c.hostName
  {
    c.(shares := c.shares + [f])
  }

  /** Adding two shares keeps them in the order they were added. */
  lemma AddSharesInOrder(c: MultiHostConfig, a: SharedFolder, b: SharedFolder)
    ensures AddShare(AddShare(c, a), b).shares == c.shares + [a, b]
  {
  }

  /** `Path::file_name`: the last component, when it is a name. */
  function FileName(path: string): Option<string> {
    var cs := Paths.Components(path);
    if cs != [] && cs[|cs| - 1].Normal? then Some(cs[|cs| - 1].name) else None
  }

  /** `single_share`: the default configuration with one writable share
      named after the directory, or "share" when the path has no final
      name. */
  function SingleShare(id: ShareId, path: string, hostname: Option<string>): (c: MultiHostConfig)
    ensures |c.shares| == 1
    ensures c.shares[0].path == path && c.shares[0].id == id && c.shares[0].writable
    ensures c.shares[0].name == FileName(path).GetOr("share")
    ensures c.bindPort == DEFAULT_PORT && c.maxConnections == DEFAULT_MAX_CONNECTIONS
  {
    AddShare(DefaultConfig(hostname), NewSharedFolder(id, path, FileName(path).GetOr("share")))
  }

  // ---------------------------------------------------------------------
  // The per-share inode table

  /** The upper bound of a share-local inode: the local part of a global
      inode has 48 bits. */
  const MAX_LOCAL_INODE: nat := 0xFFFF_FFFF_FFFF

  datatype ShareTable = ShareTable(inodeToPath: map<Inode, string>, pathToInode: map<string, Inode>, nextInode: u64)

  /** The maps are mutual inverses, every inode lies below the counter, and
      the counter never passes `MAX_LOCAL_INODE`. */
  ghost predicate ValidShareTable(s: ShareTable) {
    && Host.Inverse(s.inodeToPath, s.pathToInode)
    && (forall i | i in s.inodeToPath :: i < s.nextInode)
    && FIRST_USER_INODE <= s.nextInode <= MAX_LOCAL_INODE
  }

  /** `ShareInodeTable::new`. */
  function NewShareTable(root: string): (s: ShareTable)
    ensures ValidShareTable(s)
    ensures s.inodeToPath.Keys == {ROOT_INODE} && s.inodeToPath[ROOT_INODE] == root
    ensures s.pathToInode.Keys == {root} && s.pathToInode[root] == ROOT_INODE
    ensures s.nextInode == FIRST_USER_INODE
  {
    ShareTable(map[ROOT_INODE := root], map[root := ROOT_INODE], FIRST_USER_INODE)
  }

  /** `ShareInodeTable::get_or_create_inode`: a known path keeps its inode;
      a new one gets the counter unless the counter has reached
      `MAX_LOCAL_INODE`. There is no limit on the number of entries. */
  function ShareAlloc(s: ShareTable, path: string): (r: (ShareTable, Option<Inode>))
    ensures r.1.Some? <==> path in s.pathToInode || s.nextInode < MAX_LOCAL_INODE
    ensures path in s.pathToInode ==> r == (s, Some(s.pathToInode[path]))
    ensures path !in s.pathToInode && r.1.Some? ==> r.1.value == s.nextInode && r.0.nextInode == s.nextInode + 1
    ensures path !in s.pathToInode && r.1.Some? ==> r.0.inodeToPath == s.inodeToPath[s.nextInode := path]
    ensures r.1.None? ==> r.0 == s
  {
    if path in s.pathToInode then (s, Some(s.pathToInode[path]))
    else if s.nextInode >= MAX_LOCAL_INODE then (s, None)
    else
      var inode := s.nextInode;
      (ShareTable(s.inodeToPath[inode := path], s.pathToInode[path := inode], inode + 1), Some(inode))
  }

  /** Allocation keeps the table valid, the issued inode names the path, and
      every inode ever issued fits in the 48-bit local part of a global
      inode. */
  lemma ShareAllocKeepsValid(s: ShareTable, path: string)
    requires ValidShareTable(s)
    ensures ValidShareTable(ShareAlloc(s, path).0)
    ensures ShareAlloc(s, path).1.Some? ==>
      var (t, r) := ShareAlloc(s, path);
      && r.value in t.inodeToPath && t.inodeToPath[r.value] == path
      && r.value < MAX_LOCAL_INODE
  {
  }

  /** Asking again for a path just allocated gives the same inode. */
  lemma ShareAllocIdempotent(s: ShareTable, path: string)
    requires ShareAlloc(s, path).1.Some?
    ensures ShareAlloc(ShareAlloc(s, path).0, path) == ShareAlloc(s, path)
  {
  }

  /** A valid table never holds an inode that does not fit in 48 bits. */
  lemma ShareInodesFit(s: ShareTable, i: Inode)
    requires ValidShareTable(s) && i in s.inodeToPath
    ensures i < TWO_48
  {
  }

  class ShareInodeTable {
    const shareId: ShareId
    const rootPath: string
    var inodeToPath: map<Inode, string>
    var pathToInode: map<string, Inode>
    var nextInode: u64

    function State(): ShareTable
      reads this
    {
      ShareTable(inodeToPath, pathToInode, nextInode)
    }

    ghost predicate Valid()
      reads this
    {
      ValidShareTable(State())
    }

    constructor(shareId: ShareId, rootPath: string)
      ensures Valid() && State() == NewShareTable(rootPath)
      ensures this.shareId == shareId && this.rootPath == rootPath
    {
      this.shareId := shareId;
      this.rootPath := rootPath;
      inodeToPath := map[ROOT_INODE := rootPath];
      pathToInode := map[rootPath := ROOT_INODE];
      nextInode := FIRST_USER_INODE;
    }

    function GetPath(inode: Inode): (r: Option<string>)
      reads this
      ensures r.Some? <==> inode in inodeToPath
      ensures r.Some? ==> r.value == inodeToPath[inode]
    {
      if inode in inodeToPath then Some(inodeToPath[inode]) else None
    }

    method GetOrCreateInode(path: string) returns (r: Option<Inode>)
      requires Valid()
      modifies this
      ensures Valid()
      ensures (State(), r) == ShareAlloc(old(State()), path)
    {
      ShareAllocKeepsValid(State(), path);
      if path in pathToInode {
        return Some(pathToInode[path]);
      }
      var inode := nextInode;
      if inode >= MAX_LOCAL_INODE {
        return None;
      }
      nextInode := inode + 1;
      inodeToPath := inodeToPath[inode := path];
      pathToInode := pathToInode[path := inode];
      r := Some(inode);
    }
  }

  // ---------------------------------------------------------------------
  // Share list and handshake

  /** The fields of `ShareInfo` the host fills in; sizes, file counts and
      join codes stay unset. */
  datatype ShareInfo = ShareInfo(id: ShareId, name: string, hostName: string, rootInode: Inode, writable: bool)

  /** The entry `MultiShareHost::new` publishes for one share. */
  function InfoOf(f: SharedFolder, hostName: string): ShareInfo {
    ShareInfo(f.id, f.name, hostName, ROOT_INODE, f.writable)
  }

  /** What `MultiShareHost::new` builds: the published share list, one
      entry per configured share in order, and the root of the inode table
      it keys by share id (a later share with the same id replaces the
      earlier table). */
  method BuildShares(shares: seq<SharedFolder>, hostName: string) returns (infos: seq<ShareInfo>, roots: map<ShareId, string>)
    ensures |infos| == |shares|
    ensures forall k | 0 <= k < |shares| :: infos[k] == InfoOf(shares[k], hostName)
    ensures forall id :: id in roots <==> exists k | 0 <= k < |shares| :: shares[k].id == id
    ensures forall id | id in roots :: exists k | 0 <= k < |shares| :: shares[k].id == id && roots[id] == shares[k].path
  {
    infos, roots := [], map[];
    var k := 0;
    while k < |shares|
      invariant k <= |shares| && |infos| == k
      invariant forall j | 0 <= j < k :: infos[j] == InfoOf(shares[j], hostName)
      invariant forall id :: id in roots <==> exists j | 0 <= j < k :: shares[j].id == id
      invariant forall id | id in roots :: exists j | 0 <= j < k :: shares[j].id == id && roots[id] == shares[j].path
    {
      roots := roots[shares[k].id := shares[k].path];
      infos := infos + [InfoOf(shares[k], hostName)];
      k := k + 1;
    }
  }

  predicate HasId(id: ShareId, s: ShareInfo) {
    s.id == id
  }

  /** `ListShares`: every share, or only those with the requested id, in
      the published order. */
  function ListShares(infos: seq<ShareInfo>, filter: Option<ShareId>): (r: seq<ShareInfo>)
    ensures filter.None? ==> r == infos
    ensures filter.Some? ==> forall k | 0 <= k < |r| :: r[k].id == filter.value && r[k] in infos
    ensures filter.Some? ==> forall k | 0 <= k < |infos| && infos[k].id == filter.value :: infos[k] in r
  {
    match filter
    case None => infos
    case Some(id) => Collections.Filter(s => HasId(id, s), infos)
  }

  /** Some configured share accepts writes. */
  predicate AnyWritable(shares: seq<SharedFolder>) {
    exists k | 0 <= k < |shares| :: shares[k].writable
  }

  /** The capabilities of the `HelloAck`: reading and multiple shares
      always, writing and locking when some share is writable. */
  function Capabilities(shares: seq<SharedFolder>): (r: seq<string>)
    ensures |r| >= 2 && r[0] == "read" && r[1] == "multi-share"
    ensures AnyWritable(shares) ==> r == ["read", "multi-share", "write", "lock"]
    ensures !AnyWritable(shares) ==> r == ["read", "multi-share"]
  {
    if AnyWritable(shares) then ["read", "multi-share", "write", "lock"] else ["read", "multi-share"]
  }

  /** "write" is announced exactly when some share is writable, and "lock"
      with it. */
  lemma WriteCapabilityExactly(shares: seq<SharedFolder>)
    ensures "write" in Capabilities(shares) <==> AnyWritable(shares)
    ensures "lock" in Capabilities(shares) <==> AnyWritable(shares)
  {
    if !AnyWritable(shares) {
      var r := Capabilities(shares);
      assert r[0] != "write" && r[1] != "write";
      assert r[0] != "lock" && r[1] != "lock";
    }
  }

  // ---------------------------------------------------------------------
  // Routing of requests

  datatype RequestKind =
    | ListSharesRequest(filter: Option<ShareId>)
    | LookupRequest | GetAttrRequest | ListDirRequest | ReadChunkRequest
    | WriteChunkRequest(inode: Inode)
    | LockRequest | PingRequest
      /** A message the host has no handler for. */
    | OtherRequest

  /** Where `handle_request` sends a request. */
  datatype Route =
    | ShareList(shares: seq<ShareInfo>)
      /** To the handler, working on the default share's table. */
    | ToShare(id: ShareId)
    | Refused(code: Errors.ErrorCode, related: Option<Inode>)
    | ToLockManager
    | PongReply
    | NotImplementedReply

  predicate IsFileRequest(req: RequestKind) {
    req.LookupRequest? || req.GetAttrRequest? || req.ListDirRequest? || req.ReadChunkRequest? || req.WriteChunkRequest?
  }

  /** `handle_request`: file requests go to the first configured share;
      with no share, or no table for it, they are refused as not found, and
      a write to a read-only default share is refused before the table or
      the lock manager is consulted. */
  function RouteRequest(shares: seq<SharedFolder>, infos: seq<ShareInfo>, tables: set<ShareId>, req: RequestKind): (r: Route)
    ensures req.ListSharesRequest? ==> r == ShareList(ListShares(infos, req.filter))
    ensures IsFileRequest(req) && shares == [] ==> r == Refused(Errors.FileNotFound, None)
    ensures req.WriteChunkRequest? && shares != [] && !shares[0].writable ==>
      r == Refused(Errors.PermissionDenied, Some(req.inode))
    ensures IsFileRequest(req) && shares != [] && shares[0].id !in tables && !(req.WriteChunkRequest? && !shares[0].writable) ==>
      r == Refused(Errors.FileNotFound, None)
    ensures r.ToShare? <==>
      IsFileRequest(req) && shares != [] && shares[0].id in tables && (req.WriteChunkRequest? ==> shares[0].writable)
    ensures r.ToShare? ==> r.id == shares[0].id
    ensures req.LockRequest? ==> r == ToLockManager
    ensures req.PingRequest? ==> r == PongReply
    ensures req.OtherRequest? ==> r == NotImplementedReply
  {
    if req.ListSharesRequest? then ShareList(ListShares(infos, req.filter))
    else if req.LockRequest? then ToLockManager
    else if req.PingRequest? then PongReply
    else if req.OtherRequest? then NotImplementedReply
    else if shares == [] then Refused(Errors.FileNotFound, None)
    else if req.WriteChunkRequest? && !shares[0].writable then Refused(Errors.PermissionDenied, Some(req.inode))
    else if shares[0].id in tables then ToShare(shares[0].id)
    else Refused(Errors.FileNotFound, None)
  }

  /** A write to a read-only default share is refused whatever tables the
      host holds: the refusal does not depend on them. */
  lemma ReadOnlyRefusalIgnoresTables(shares: seq<SharedFolder>, infos: seq<ShareInfo>, a: set<ShareId>, b: set<ShareId>, inode: Inode)
    requires shares != [] && !shares[0].writable
    ensures RouteRequest(shares, infos, a, WriteChunkRequest(inode)) == RouteRequest(shares, infos, b, WriteChunkRequest(inode))
    ensures RouteRequest(shares, infos, a, WriteChunkRequest(inode)).Refused?
  {
  }

  /** `Pong.server_timestamp`: milliseconds since the epoch, truncated to
      64 bits by `as u64`. */
  function ServerTimestamp(millis: nat): (r: u64)
    ensures millis < TWO_64 ==> r == millis
  {
    millis % TWO_64
  }
}
