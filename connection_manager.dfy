/** The client-side connection manager
    (crates/teleport-daemon/src/connection_manager.rs): the hosts it is
    connected to, the shares they announce, the share indices that make up
    the top 16 bits of a global inode, and the reconnect loop with
    exponential backoff. The network is abstract: the outcome of each
    connection attempt is a parameter. */
module ConnectionManager {
  import opened Ints
  import opened Wrappers
  import opened Types
  import MultiHost

  type ShareInfo = MultiHost.ShareInfo

  // ---------------------------------------------------------------------
  // Configuration (durations in milliseconds)

  datatype ReconnectConfig = ReconnectConfig(enabled: bool, initialDelay: nat, maxDelay: nat, maxAttempts: u32)

  /** `ReconnectConfig::default`: enabled, 1 s initial delay, 60 s cap,
      and 0 attempts, which means unlimited. */
  const DEFAULT_RECONNECT: ReconnectConfig := ReconnectConfig(true, 1000, 60000, 0)

  datatype HostConnectionConfig = HostConnectionConfig(
    address: string, joinCode: Option<string>, displayName: Option<string>, reconnect: ReconnectConfig)

  // ---------------------------------------------------------------------
  // State

  /** A managed host. The source keeps the status twice (on the host and in
      its `HostInfo`) and always sets both together; it is kept once here. */
  datatype ManagedHost = ManagedHost(
    reconnect: ReconnectConfig, name: string, status: ConnectionStatus, shares: seq<ShareInfo>, attempts: nat)

  datatype RegisteredShare = RegisteredShare(info: ShareInfo, index: u16, hostId: string)

  datatype Manager = Manager(
    hosts: map<string, ManagedHost>,
    shares: map<ShareId, RegisteredShare>,
    shareIndex: map<u16, ShareId>,
    nextShareIndex: u16)

  /** Index 0 belongs to the virtual root, so the first share gets 1. */
  const FIRST_SHARE_INDEX: u16 := 1

  /** `u16::MAX` is reserved to mean that the index space is exhausted. */
  const EXHAUSTED_INDEX: u16 := 0xFFFF

  const NEW_MANAGER: Manager := Manager(map[], map[], map[], FIRST_SHARE_INDEX)

  /** The invariant: indices handed out lie in [1, next), and every
      registered share belongs to a known host and is found again through
      the index it was registered under. */
  ghost predicate Valid(m: Manager) {
    && FIRST_SHARE_INDEX <= m.nextShareIndex
    && (forall i :: i in m.shareIndex ==> FIRST_SHARE_INDEX <= i < m.nextShareIndex)
    && (forall id :: id in m.shares ==> Registers(m, id, m.shares[id]))
  }

  ghost predicate Registers(m: Manager, id: ShareId, r: RegisteredShare) {
    && r.info.id == id
    && r.hostId in m.hosts
    && r.index in m.shareIndex
    && m.shareIndex[r.index] == id
  }

  lemma NewManagerValid()
    ensures Valid(NEW_MANAGER)
  {
  }

  /** `new_host`: a host starts disconnected with no shares; its name is
      the display name, or else the address. */
  function NewHost(config: HostConnectionConfig): (h: ManagedHost)
    ensures h.status == Disconnected && h.shares == [] && h.attempts == 0
    ensures h.reconnect == config.reconnect
    ensures config.displayName.Some? ==> h.name == config.displayName.value
    ensures config.displayName.None? ==> h.name == config.address
  {
    var name := if config.displayName.Some? then config.displayName.value else config.address;
    ManagedHost(config.reconnect, name, Disconnected, [], 0)
  }

  /** Two host maps that differ at most in the hosts' share lists. */
  ghost predicate SameHeaders(a: map<string, ManagedHost>, b: map<string, ManagedHost>) {
    && a.Keys == b.Keys
    && forall k :: k in a ==> SameHeader(a[k], b[k])
  }

  ghost predicate SameHeader(x: ManagedHost, y: ManagedHost) {
    x.reconnect == y.reconnect && x.name == y.name && x.status == y.status && x.attempts == y.attempts
  }

  // ---------------------------------------------------------------------
  // Share registration

  /** The first half of `register_share`, under the two index locks: refuse
      when the host is unknown or the index space is exhausted, otherwise
      take the next index and record index -> share id. */
  function Reserve(m: Manager, hostId: string, share: ShareInfo): (r: (Manager, Option<u16>))
    ensures r.1.Some? <==> hostId in m.hosts && m.nextShareIndex != EXHAUSTED_INDEX
    ensures r.1.None? ==> r.0 == m
    ensures r.1.Some? ==> r.1.value == m.nextShareIndex && r.0.nextShareIndex == m.nextShareIndex + 1
    ensures r.1.Some? ==> r.0.shareIndex == m.shareIndex[r.1.value := share.id]
    ensures r.0.hosts == m.hosts && r.0.shares == m.shares
  {
    if hostId !in m.hosts then (m, None)
    else if m.nextShareIndex == EXHAUSTED_INDEX then (m, None)
    else
      var idx := m.nextShareIndex;
      (m.(nextShareIndex := idx + 1, shareIndex := m.shareIndex[idx := share.id]), Some(idx))
  }

  /** The second half of `register_share`: if the host is still there,
      append the share to its list and store it under its id; if it was
      removed in the meantime, roll the index mapping back. The index
      counter is never decremented. */
  function Commit(m: Manager, hostId: string, share: ShareInfo, idx: u16): (r: (Manager, Option<u16>))
    ensures r.1.Some? <==> hostId in m.hosts
    ensures r.1.Some? ==> r.1.value == idx
    ensures r.0.nextShareIndex == m.nextShareIndex
    ensures hostId in m.hosts ==>
      && r.0.shares == m.shares[share.id := RegisteredShare(share, idx, hostId)]
      && r.0.hosts == m.hosts[hostId := m.hosts[hostId].(shares := m.hosts[hostId].shares + [share])]
      && r.0.shareIndex == m.shareIndex
    ensures hostId !in m.hosts ==> r.0 == m.(shareIndex := m.shareIndex - {idx})
  {
    if hostId in m.hosts then
      var h := m.hosts[hostId];
      (m.(hosts := m.hosts[hostId := h.(shares := h.shares + [share])],
          shares := m.shares[share.id := RegisteredShare(share, idx, hostId)]), Some(idx))
    else
      (m.(shareIndex := m.shareIndex - {idx}), None)
  }

  /** `register_share` run without interference. */
  function Register(m: Manager, hostId: string, share: ShareInfo): (r: (Manager, Option<u16>))
    ensures r.1.Some? <==> hostId in m.hosts && m.nextShareIndex != EXHAUSTED_INDEX
    ensures r.1.None? ==> r.0 == m
    ensures r.1.Some? ==>
      && r.1.value == m.nextShareIndex
      && r.0.nextShareIndex == m.nextShareIndex + 1
      && r.0.shareIndex == m.shareIndex[r.1.value := share.id]
      && r.0.shares == m.shares[share.id := RegisteredShare(share, r.1.value, hostId)]
      && r.0.hosts == m.hosts[hostId := m.hosts[hostId].(shares := m.hosts[hostId].shares + [share])]
    ensures SameHeaders(m.hosts, r.0.hosts)
  {
    var (m1, reserved) := Reserve(m, hostId, share);
    if reserved.None? then (m1, None) else Commit(m1, hostId, share, reserved.value)
  }

  /** What holds between the two halves: `idx` maps to the share's id, lies
      below the counter, and no stored share uses it yet. */
  ghost predicate Reserved(m: Manager, idx: u16, id: ShareId) {
    && idx in m.shareIndex && m.shareIndex[idx] == id
    && (forall sid :: sid in m.shares ==> m.shares[sid].index != idx)
  }

  lemma ReserveKeepsValid(m: Manager, hostId: string, share: ShareInfo)
    requires Valid(m)
    ensures Valid(Reserve(m, hostId, share).0)
    ensures Reserve(m, hostId, share).1.Some? ==>
      Reserved(Reserve(m, hostId, share).0, Reserve(m, hostId, share).1.value, share.id)
  {
    var (m1, r) := Reserve(m, hostId, share);
    if r.Some? {
      forall id | id in m1.shares ensures Registers(m1, id, m1.shares[id]) {
        assert Registers(m, id, m.shares[id]);
      }
    }
  }

  lemma CommitKeepsValid(m: Manager, hostId: string, share: ShareInfo, idx: u16)
    requires Valid(m) && Reserved(m, idx, share.id)
    ensures Valid(Commit(m, hostId, share, idx).0)
  {
    var m1 := Commit(m, hostId, share, idx).0;
    forall id | id in m1.shares ensures Registers(m1, id, m1.shares[id]) {
      if id != share.id || hostId !in m.hosts {
        assert Registers(m, id, m.shares[id]);
      }
    }
  }

  /** Registration keeps the invariant. */
  lemma RegisterKeepsValid(m: Manager, hostId: string, share: ShareInfo)
    requires Valid(m)
    ensures Valid(Register(m, hostId, share).0)
  {
    ReserveKeepsValid(m, hostId, share);
    var (m1, r) := Reserve(m, hostId, share);
    if r.Some? {
      CommitKeepsValid(m1, hostId, share, r.value);
    }
  }

  /** Once the counter reaches `u16::MAX` nothing more is registered. */
  lemma ExhaustedStaysExhausted(m: Manager, hostId: string, share: ShareInfo)
    requires m.nextShareIndex == EXHAUSTED_INDEX
    ensures Register(m, hostId, share) == (m, None)
  {
  }

  /** `connect_host`'s loop over the announced shares, one `register_share`
      after the other; a refusal is only logged. */
  function RegisterAll(m: Manager, hostId: string, shares: seq<ShareInfo>): (r: Manager)
    ensures SameHeaders(m.hosts, r.hosts)
    decreases |shares|
  {
    if |shares| == 0 then m
    else
      var m1 := Register(m, hostId, shares[0]).0;
      var r := RegisterAll(m1, hostId, shares[1..]);
      SameHeadersTrans(m.hosts, m1.hosts, r.hosts);
      r
  }

  lemma SameHeadersTrans(a: map<string, ManagedHost>, b: map<string, ManagedHost>, c: map<string, ManagedHost>)
    requires SameHeaders(a, b) && SameHeaders(b, c)
    ensures SameHeaders(a, c)
  {
    forall k | k in a ensures SameHeader(a[k], c[k]) {
      assert SameHeader(a[k], b[k]) && SameHeader(b[k], c[k]);
    }
  }

  lemma {:induction false} RegisterAllKeepsValid(m: Manager, hostId: string, shares: seq<ShareInfo>)
    requires Valid(m)
    ensures Valid(RegisterAll(m, hostId, shares))
    decreases |shares|
  {
    if |shares| > 0 {
      RegisterKeepsValid(m, hostId, shares[0]);
      RegisterAllKeepsValid(Register(m, hostId, shares[0]).0, hostId, shares[1..]);
    }
  }

  /** `index` leads to share id `id`. */
  ghost predicate IndexedAt(shareIndex: map<u16, ShareId>, index: int, id: ShareId) {
    0 <= index < TWO_16 && index in shareIndex && shareIndex[index] == id
  }

  /** The shares' ids are found at consecutive indices from `base` on. */
  ghost predicate ConsecutiveFrom(shareIndex: map<u16, ShareId>, base: int, shares: seq<ShareInfo>)
    decreases |shares|
  {
    |shares| == 0 || (IndexedAt(shareIndex, base, shares[0].id) && ConsecutiveFrom(shareIndex, base + 1, shares[1..]))
  }

  lemma {:induction false} ConsecutiveFromAt(shareIndex: map<u16, ShareId>, base: int, shares: seq<ShareInfo>, k: nat)
    requires ConsecutiveFrom(shareIndex, base, shares) && k < |shares|
    ensures IndexedAt(shareIndex, base + k, shares[k].id)
    decreases k
  {
    if k > 0 {
      ConsecutiveFromAt(shareIndex, base + 1, shares[1..], k - 1);
    }
  }

  /** Indices are handed out consecutively, in announcement order: while
      the index space lasts, the shares of one handshake get `next`,
      `next + 1`, ... and each index leads back to its share's id
      (`ConsecutiveFromAt` reads this off for the k-th share). */
  lemma {:induction false} RegisterAllConsecutive(m: Manager, hostId: string, shares: seq<ShareInfo>)
    requires hostId in m.hosts
    requires m.nextShareIndex + |shares| < EXHAUSTED_INDEX
    ensures RegisterAll(m, hostId, shares).nextShareIndex == m.nextShareIndex + |shares|
    ensures ConsecutiveFrom(RegisterAll(m, hostId, shares).shareIndex, m.nextShareIndex, shares)
    decreases |shares|
  {
    if |shares| > 0 {
      var m1 := Register(m, hostId, shares[0]).0;
      RegisterHead(m, hostId, shares[0]);
      RegisterAllConsecutive(m1, hostId, shares[1..]);
      RegisterAllKeepsIndex(m1, hostId, shares[1..], m.nextShareIndex);
      assert RegisterAll(m, hostId, shares) == RegisterAll(m1, hostId, shares[1..]);
    }
  }

  lemma RegisterHead(m: Manager, hostId: string, share: ShareInfo)
    requires hostId in m.hosts && m.nextShareIndex != EXHAUSTED_INDEX
    ensures var m1 := Register(m, hostId, share).0;
      && IndexedAt(m1.shareIndex, m.nextShareIndex, share.id)
      && m1.nextShareIndex == m.nextShareIndex + 1
      && hostId in m1.hosts
  {
  }

  /** Registration never rewrites an index below the counter. */
  lemma {:induction false} RegisterAllKeepsIndex(m: Manager, hostId: string, shares: seq<ShareInfo>, i: u16)
    requires i in m.shareIndex && i < m.nextShareIndex
    ensures i in RegisterAll(m, hostId, shares).shareIndex
    ensures RegisterAll(m, hostId, shares).shareIndex[i] == m.shareIndex[i]
    ensures m.nextShareIndex <= RegisterAll(m, hostId, shares).nextShareIndex
    decreases |shares|
  {
    if |shares| > 0 {
      RegisterAllKeepsIndex(Register(m, hostId, shares[0]).0, hostId, shares[1..], i);
    }
  }

  // ---------------------------------------------------------------------
  // Host removal and lookups

  /** `remove_host`: if the host was known, drop it and every share whose
      `host_id` is that host. The index mapping is left as it is. */
  function RemoveHostStep(m: Manager, hostId: string): (r: Manager)
    ensures r.hosts == m.hosts - {hostId}
    ensures r.shareIndex == m.shareIndex && r.nextShareIndex == m.nextShareIndex
    ensures hostId !in m.hosts ==> r == m
    ensures hostId in m.hosts ==> forall id :: id in r.shares <==> id in m.shares && m.shares[id].hostId != hostId
    ensures forall id :: id in r.shares ==> id in m.shares && r.shares[id] == m.shares[id]
  {
    if hostId !in m.hosts then m
    else m.(hosts := m.hosts - {hostId},
            shares := map id | id in m.shares && m.shares[id].hostId != hostId :: m.shares[id])
  }

  lemma RemoveHostKeepsValid(m: Manager, hostId: string)
    requires Valid(m)
    ensures Valid(RemoveHostStep(m, hostId))
  {
    var r := RemoveHostStep(m, hostId);
    forall id | id in r.shares ensures Registers(r, id, r.shares[id]) {
      assert Registers(m, id, m.shares[id]);
    }
  }

  /** `get_share_by_index`: index -> share id -> stored share. */
  function GetShareByIndex(m: Manager, index: u16): (r: Option<RegisteredShare>)
    ensures r.Some? <==> index in m.shareIndex && m.shareIndex[index] in m.shares
    ensures r.Some? ==> r.value == m.shares[m.shareIndex[index]]
  {
    if index in m.shareIndex && m.shareIndex[index] in m.shares then Some(m.shares[m.shareIndex[index]]) else None
  }

  /** After `remove_host`, no index leads to a share of that host any more. */
  lemma RemovedHostUnreachable(m: Manager, hostId: string, index: u16)
    requires hostId in m.hosts
    ensures GetShareByIndex(RemoveHostStep(m, hostId), index).None? ||
            GetShareByIndex(RemoveHostStep(m, hostId), index).value.hostId != hostId
  {
  }

  /** `resolve_inode`: the virtual root is handled by the caller, anything
      else resolves through the share index. */
  function ResolveInode(m: Manager, g: GlobalInode): (r: Option<(RegisteredShare, Inode)>)
    ensures IsVirtualRoot(g) ==> r.None?
    ensures !IsVirtualRoot(g) ==> (r.Some? <==> GetShareByIndex(m, g.shareIndex).Some?)
    ensures r.Some? ==> r.value == (GetShareByIndex(m, g.shareIndex).value, g.localInode)
  {
    if IsVirtualRoot(g) then None
    else
      var share := GetShareByIndex(m, g.shareIndex);
      if share.None? then None else Some((share.value, g.localInode))
  }

  /** Under the invariant, share index 0 and every index not handed out
      resolve to nothing. */
  lemma UnregisteredIndexUnresolved(m: Manager, g: GlobalInode)
    requires Valid(m)
    requires g.shareIndex == 0 || g.shareIndex >= m.nextShareIndex
    ensures ResolveInode(m, g).None?
  {
  }

  /** A fresh manager resolves nothing. */
  lemma NewManagerResolvesNothing(g: GlobalInode)
    ensures ResolveInode(NEW_MANAGER, g).None?
  {
  }

  /** A share just registered is found again by every global inode that
      carries its index. */
  lemma RegisterThenResolve(m: Manager, hostId: string, share: ShareInfo, local: Inode)
    requires Valid(m)
    requires Register(m, hostId, share).1.Some?
    ensures var (m1, idx) := Register(m, hostId, share);
      ResolveInode(m1, GlobalInode(idx.value, local)) == Some((RegisteredShare(share, idx.value, hostId), local))
  {
  }

  /** The host was removed between the two halves of `register_share`:
      the rollback leaves no orphaned index mapping and no stored share,
      while the index itself stays used up. */
  lemma RaceRollsBack(m: Manager, hostId: string, share: ShareInfo)
    requires Valid(m)
    requires Reserve(m, hostId, share).1.Some?
    ensures var (m1, idx) := Reserve(m, hostId, share);
      var m3 := Commit(RemoveHostStep(m1, hostId), hostId, share, idx.value);
      && m3.1.None?
      && idx.value !in m3.0.shareIndex
      && m3.0.nextShareIndex == m.nextShareIndex + 1
      && m3.0.shares.Keys <= m.shares.Keys
      && Valid(m3.0)
  {
    var (m1, idx) := Reserve(m, hostId, share);
    ReserveKeepsValid(m, hostId, share);
    var m2 := RemoveHostStep(m1, hostId);
    RemoveHostKeepsValid(m1, hostId);
    assert Reserved(m2, idx.value, share.id);
    CommitKeepsValid(m2, hostId, share, idx.value);
  }

  // ---------------------------------------------------------------------
  // Connecting and reconnecting

  /** The outcome of one `connect_host` attempt as seen from the manager:
      the QUIC connection could not be opened, the endpoint or the
      handshake failed, or the handshake named the host and its shares. */
  datatype ConnectOutcome = Unreachable | HandshakeFailed | Handshook(hostName: string, shares: seq<ShareInfo>)

  /** `connect_host`: an unknown host is an error; an unreachable host is
      marked failed; a completed handshake marks the host connected under
      its announced name, resets its attempt counter and registers its
      shares. */
  function Connect(m: Manager, hostId: string, outcome: ConnectOutcome): (r: (Manager, bool))
    ensures r.1 <==> hostId in m.hosts && outcome.Handshook?
    ensures r.0.hosts.Keys == m.hosts.Keys
    ensures hostId in m.hosts ==> r.0.hosts[hostId].reconnect == m.hosts[hostId].reconnect
    ensures hostId in m.hosts && outcome.Unreachable? ==>
      r.0 == m.(hosts := m.hosts[hostId := m.hosts[hostId].(status := Failed)])
    ensures !outcome.Unreachable? && !r.1 ==> r.0 == m
    ensures r.1 ==>
      && r.0.hosts[hostId].status == Connected
      && r.0.hosts[hostId].name == outcome.hostName
      && r.0.hosts[hostId].attempts == 0
  {
    if hostId !in m.hosts then (m, false)
    else
      var h := m.hosts[hostId];
      match outcome
      case Unreachable => (m.(hosts := m.hosts[hostId := h.(status := Failed)]), false)
      case HandshakeFailed => (m, false)
      case Handshook(name, shares) =>
        var m1 := m.(hosts := m.hosts[hostId := h.(status := Connected, name := name, attempts := 0)]);
        var r := RegisterAll(m1, hostId, shares);
        assert SameHeader(m1.hosts[hostId], r.hosts[hostId]);
        (r, true)
  }

  /** Updating a known host's own fields keeps the invariant. */
  lemma UpdateHostKeepsValid(m: Manager, hostId: string, h: ManagedHost)
    requires Valid(m) && hostId in m.hosts
    ensures Valid(m.(hosts := m.hosts[hostId := h]))
  {
    var m1 := m.(hosts := m.hosts[hostId := h]);
    forall id | id in m1.shares ensures Registers(m1, id, m1.shares[id]) {
      assert Registers(m, id, m.shares[id]);
    }
  }

  lemma ConnectKeepsValid(m: Manager, hostId: string, outcome: ConnectOutcome)
    requires Valid(m)
    ensures Valid(Connect(m, hostId, outcome).0)
  {
    if hostId in m.hosts {
      var h := m.hosts[hostId];
      match outcome
      case Unreachable => UpdateHostKeepsValid(m, hostId, h.(status := Failed));
      case HandshakeFailed =>
      case Handshook(name, shares) =>
        var h1 := h.(status := Connected, name := name, attempts := 0);
        UpdateHostKeepsValid(m, hostId, h1);
        RegisterAllKeepsValid(m.(hosts := m.hosts[hostId := h1]), hostId, shares);
    }
  }

  /** `add_host`: store a new host as connecting (replacing one with the
      same id), then connect to it. */
  function AddHostStep(m: Manager, hostId: string, config: HostConnectionConfig, outcome: ConnectOutcome): (r: (Manager, bool))
    ensures r.1 <==> outcome.Handshook?
    ensures r.0.hosts.Keys == m.hosts.Keys + {hostId}
    ensures r.0.hosts[hostId].reconnect == config.reconnect
    ensures outcome.HandshakeFailed? ==> r.0.hosts[hostId].status == Connecting
  {
    Connect(m.(hosts := m.hosts[hostId := NewHost(config).(status := Connecting)]), hostId, outcome)
  }

  lemma AddHostKeepsValid(m: Manager, hostId: string, config: HostConnectionConfig, outcome: ConnectOutcome)
    requires Valid(m)
    ensures Valid(AddHostStep(m, hostId, config, outcome).0)
  {
    var m1 := m.(hosts := m.hosts[hostId := NewHost(config).(status := Connecting)]);
    forall id | id in m1.shares ensures Registers(m1, id, m1.shares[id]) {
      assert Registers(m, id, m.shares[id]);
    }
    ConnectKeepsValid(m1, hostId, outcome);
  }

  /** The reference definition of the backoff: the delay slept before the
      k-th reconnect (from 0), doubling each time and capped at `maxDelay`
      from the second attempt on. */
  function Backoff(initial: nat, maxDelay: nat, k: nat): nat {
    if k == 0 then initial else Min(2 * Backoff(initial, maxDelay, k - 1), maxDelay)
  }

  /** Closed form: after the first attempt the delay is
      `min(initial * 2^k, maxDelay)`. */
  lemma {:induction false} BackoffClosedForm(initial: nat, maxDelay: nat, k: nat)
    requires k >= 1
    ensures Backoff(initial, maxDelay, k) == Min(initial * Pow2(k), maxDelay)
  {
    var a := initial * Pow2(k - 1);
    assert initial * Pow2(k) == 2 * a by {
      assert Pow2(k) == 2 * Pow2(k - 1);
    }
    if k > 1 {
      BackoffClosedForm(initial, maxDelay, k - 1);
      DoubleMin(a, maxDelay);
    }
  }

  lemma DoubleMin(a: nat, cap: nat)
    ensures Min(2 * Min(a, cap), cap) == Min(2 * a, cap)
  {
  }

  /** The delay never exceeds the cap after the first attempt, and never
      shrinks when the initial delay is within the cap. */
  lemma {:induction false} BackoffBounded(initial: nat, maxDelay: nat, k: nat)
    requires initial <= maxDelay
    ensures Backoff(initial, maxDelay, k) <= maxDelay
    ensures Backoff(initial, maxDelay, k) <= Backoff(initial, maxDelay, k + 1)
  {
    if k > 0 {
      BackoffBounded(initial, maxDelay, k - 1);
    }
  }

  /** The backoff restarted from the second delay is the same sequence
      shifted by one. */
  lemma {:induction false} BackoffShift(initial: nat, maxDelay: nat, j: nat)
    ensures Backoff(Min(2 * initial, maxDelay), maxDelay, j) == Backoff(initial, maxDelay, j + 1)
  {
    if j > 0 {
      BackoffShift(initial, maxDelay, j - 1);
    }
  }

  /** How one round of the reconnect loop ends. */
  datatype Round = GaveUp(state: Manager) | Reconnected(state: Manager) | Retry(state: Manager, nextDelay: nat)

  /** The state once a round has counted its attempt. */
  function Counted(m: Manager, hostId: string): Manager
    requires hostId in m.hosts
  {
    m.(hosts := m.hosts[hostId := m.hosts[hostId].(attempts := m.hosts[hostId].attempts + 1)])
  }

  /** One round of `attempt_reconnect`'s loop: bump the attempt counter,
      give up with `Failed` once a positive limit is exceeded, otherwise
      (after sleeping) try to connect, and on failure double the delay up
      to the host's cap. */
  function ReconnectRound(m: Manager, hostId: string, delay: nat, maxAttempts: u32, outcome: ConnectOutcome): (r: Round)
    requires hostId in m.hosts
    ensures r.state.hosts.Keys == m.hosts.Keys
    ensures r.state.hosts[hostId].reconnect == m.hosts[hostId].reconnect
    ensures r.GaveUp? <==> maxAttempts > 0 && m.hosts[hostId].attempts + 1 > maxAttempts
    ensures r.Reconnected? <==> !r.GaveUp? && outcome.Handshook?
    ensures r.GaveUp? ==> r.state.hosts[hostId].status == Failed
    ensures !r.Reconnected? ==> r.state.hosts[hostId].attempts == m.hosts[hostId].attempts + 1
    ensures r.Reconnected? ==> r.state.hosts[hostId].status == Connected && r.state.hosts[hostId].attempts == 0
    ensures r.Retry? ==> r.nextDelay == Min(2 * delay, m.hosts[hostId].reconnect.maxDelay)
  {
    var h := m.hosts[hostId];
    var attempt := h.attempts + 1;
    var m1 := Counted(m, hostId);
    if maxAttempts > 0 && attempt > maxAttempts then
      GaveUp(m1.(hosts := m1.hosts[hostId := h.(attempts := attempt, status := Failed)]))
    else
      var c := Connect(m1, hostId, outcome);
      if c.1 then Reconnected(c.0) else Retry(c.0, Min(2 * delay, c.0.hosts[hostId].reconnect.maxDelay))
  }

  /** The loop of `attempt_reconnect` from the current delay on, with the
      outcomes of the connection attempts it gets to make; the model
      follows the loop for as many attempts as there are outcomes. The
      second component lists the delays slept. */
  function Reconnect(m: Manager, hostId: string, delay: nat, maxAttempts: u32, outcomes: seq<ConnectOutcome>): (r: (Manager, seq<nat>))
    ensures r.0.hosts.Keys == m.hosts.Keys
    ensures hostId in m.hosts ==> r.0.hosts[hostId].reconnect == m.hosts[hostId].reconnect
    ensures |r.1| <= |outcomes|
    decreases |outcomes|
  {
    if hostId !in m.hosts || |outcomes| == 0 then (m, [])
    else
      match ReconnectRound(m, hostId, delay, maxAttempts, outcomes[0])
      case GaveUp(s) => (s, [])
      case Reconnected(s) => (s, [delay])
      case Retry(s, next) =>
        var r := Reconnect(s, hostId, next, maxAttempts, outcomes[1..]);
        (r.0, [delay] + r.1)
  }

  /** `attempt_reconnect`: read the host's initial delay and attempt limit,
      then run the loop. */
  function AttemptReconnectStep(m: Manager, hostId: string, outcomes: seq<ConnectOutcome>): (r: (Manager, seq<nat>))
    ensures hostId !in m.hosts ==> r == (m, [])
    ensures r.0.hosts.Keys == m.hosts.Keys
  {
    if hostId !in m.hosts then (m, [])
    else
      var c := m.hosts[hostId].reconnect;
      Reconnect(m, hostId, c.initialDelay, c.maxAttempts, outcomes)
  }

  /** `handle_connection_failure`: mark the host reconnecting and, if
      reconnection is enabled, run `attempt_reconnect`. */
  function ConnectionFailureStep(m: Manager, hostId: string, outcomes: seq<ConnectOutcome>): (r: (Manager, seq<nat>))
    ensures hostId !in m.hosts ==> r == (m, [])
    ensures hostId in m.hosts && !m.hosts[hostId].reconnect.enabled ==>
      r == (m.(hosts := m.hosts[hostId := m.hosts[hostId].(status := Reconnecting)]), [])
    ensures r.0.hosts.Keys == m.hosts.Keys
  {
    if hostId !in m.hosts then (m, [])
    else
      var h := m.hosts[hostId];
      var m1 := m.(hosts := m.hosts[hostId := h.(status := Reconnecting)]);
      if h.reconnect.enabled then AttemptReconnectStep(m1, hostId, outcomes) else (m1, [])
  }

  /** The delays slept form the backoff sequence from `delay`. */
  ghost predicate SleepsFrom(slept: seq<nat>, delay: nat, maxDelay: nat)
    decreases |slept|
  {
    |slept| == 0 || (slept[0] == delay && SleepsFrom(slept[1..], Min(2 * delay, maxDelay), maxDelay))
  }

  lemma {:induction false} SleepsFromAt(slept: seq<nat>, delay: nat, maxDelay: nat, k: nat)
    requires SleepsFrom(slept, delay, maxDelay) && k < |slept|
    ensures slept[k] == Backoff(delay, maxDelay, k)
    decreases k
  {
    if k > 0 {
      SleepsFromAt(slept[1..], Min(2 * delay, maxDelay), maxDelay, k - 1);
      BackoffShift(delay, maxDelay, k - 1);
    }
  }

  /** The reconnect loop sleeps exactly the backoff sequence of the host's
      configuration (`SleepsFromAt` gives the k-th delay as `Backoff`). */
  lemma {:induction false} ReconnectSleepsBackoff(m: Manager, hostId: string, delay: nat, maxAttempts: u32, outcomes: seq<ConnectOutcome>)
    requires hostId in m.hosts
    ensures SleepsFrom(Reconnect(m, hostId, delay, maxAttempts, outcomes).1, delay, m.hosts[hostId].reconnect.maxDelay)
    decreases |outcomes|
  {
    if |outcomes| > 0 {
      var round := ReconnectRound(m, hostId, delay, maxAttempts, outcomes[0]);
      if round.Retry? {
        ReconnectSleepsBackoff(round.state, hostId, round.nextDelay, maxAttempts, outcomes[1..]);
        var slept := Reconnect(round.state, hostId, round.nextDelay, maxAttempts, outcomes[1..]).1;
        assert ([delay] + slept)[1..] == slept;
      }
    }
  }

  /** No outcome in the list is a completed handshake. */
  ghost predicate AllFail(outcomes: seq<ConnectOutcome>) {
    forall k :: 0 <= k < |outcomes| ==> !outcomes[k].Handshook?
  }

  lemma AllFailTail(outcomes: seq<ConnectOutcome>)
    requires AllFail(outcomes) && |outcomes| > 0
    ensures !outcomes[0].Handshook? && AllFail(outcomes[1..])
  {
  }

  /** With a positive limit and only failures, the loop sleeps once per
      remaining attempt and then gives up with status `Failed`. */
  lemma {:induction false} ReconnectGivesUp(m: Manager, hostId: string, delay: nat, maxAttempts: u32, outcomes: seq<ConnectOutcome>)
    requires hostId in m.hosts && maxAttempts > 0 && m.hosts[hostId].attempts <= maxAttempts
    requires AllFail(outcomes) && |outcomes| > maxAttempts - m.hosts[hostId].attempts
    ensures |Reconnect(m, hostId, delay, maxAttempts, outcomes).1| == maxAttempts - m.hosts[hostId].attempts
    ensures Reconnect(m, hostId, delay, maxAttempts, outcomes).0.hosts[hostId].status == Failed
    ensures Reconnect(m, hostId, delay, maxAttempts, outcomes).0.hosts[hostId].attempts == maxAttempts + 1
    decreases |outcomes|
  {
    AllFailTail(outcomes);
    var round := ReconnectRound(m, hostId, delay, maxAttempts, outcomes[0]);
    if round.Retry? {
      ReconnectGivesUp(round.state, hostId, round.nextDelay, maxAttempts, outcomes[1..]);
    }
  }

  /** With no limit (`max_attempts == 0`, the default) the loop never gives
      up: it makes one attempt per failing outcome. */
  lemma {:induction false} UnlimitedNeverGivesUp(m: Manager, hostId: string, delay: nat, outcomes: seq<ConnectOutcome>)
    requires hostId in m.hosts && AllFail(outcomes)
    ensures |Reconnect(m, hostId, delay, 0, outcomes).1| == |outcomes|
    decreases |outcomes|
  {
    if |outcomes| > 0 {
      AllFailTail(outcomes);
      var round := ReconnectRound(m, hostId, delay, 0, outcomes[0]);
      UnlimitedNeverGivesUp(round.state, hostId, round.nextDelay, outcomes[1..]);
    }
  }

  /** A completed handshake within the limit ends the loop after one
      sleep: the host is connected with a fresh attempt counter. */
  lemma ReconnectSucceeds(m: Manager, hostId: string, delay: nat, maxAttempts: u32, outcomes: seq<ConnectOutcome>)
    requires hostId in m.hosts && |outcomes| > 0 && outcomes[0].Handshook?
    requires maxAttempts == 0 || m.hosts[hostId].attempts < maxAttempts
    ensures Reconnect(m, hostId, delay, maxAttempts, outcomes).1 == [delay]
    ensures Reconnect(m, hostId, delay, maxAttempts, outcomes).0.hosts[hostId].status == Connected
    ensures Reconnect(m, hostId, delay, maxAttempts, outcomes).0.hosts[hostId].attempts == 0
  {
    var round := ReconnectRound(m, hostId, delay, maxAttempts, outcomes[0]);
    assert round.Reconnected?;
  }

  lemma RoundKeepsValid(m: Manager, hostId: string, delay: nat, maxAttempts: u32, outcome: ConnectOutcome)
    requires Valid(m) && hostId in m.hosts
    ensures Valid(ReconnectRound(m, hostId, delay, maxAttempts, outcome).state)
  {
    if maxAttempts > 0 && m.hosts[hostId].attempts + 1 > maxAttempts {
      GiveUpKeepsValid(m, hostId, delay, maxAttempts, outcome);
    } else {
      RetryKeepsValid(m, hostId, delay, maxAttempts, outcome);
    }
  }

  /** The round that gives up only rewrites the host's own record. */
  lemma GiveUpKeepsValid(m: Manager, hostId: string, delay: nat, maxAttempts: u32, outcome: ConnectOutcome)
    requires Valid(m) && hostId in m.hosts
    requires maxAttempts > 0 && m.hosts[hostId].attempts + 1 > maxAttempts
    ensures Valid(ReconnectRound(m, hostId, delay, maxAttempts, outcome).state)
  {
    var h := m.hosts[hostId];
    var h1 := h.(attempts := h.attempts + 1);
    UpdateHostKeepsValid(m, hostId, h1);
    UpdateHostKeepsValid(m.(hosts := m.hosts[hostId := h1]), hostId, h.(attempts := h.attempts + 1, status := Failed));
  }

  /** The round that tries again connects from the counted state. */
  lemma RetryKeepsValid(m: Manager, hostId: string, delay: nat, maxAttempts: u32, outcome: ConnectOutcome)
    requires Valid(m) && hostId in m.hosts
    requires !(maxAttempts > 0 && m.hosts[hostId].attempts + 1 > maxAttempts)
    ensures Valid(ReconnectRound(m, hostId, delay, maxAttempts, outcome).state)
  {
    var h := m.hosts[hostId];
    var m1 := Counted(m, hostId);
    assert Valid(m1) by {
      UpdateHostKeepsValid(m, hostId, h.(attempts := h.attempts + 1));
    }
    ConnectKeepsValid(m1, hostId, outcome);
  }

  lemma {:induction false} ReconnectKeepsValid(m: Manager, hostId: string, delay: nat, maxAttempts: u32, outcomes: seq<ConnectOutcome>)
    requires Valid(m)
    ensures Valid(Reconnect(m, hostId, delay, maxAttempts, outcomes).0)
    decreases |outcomes|
  {
    if hostId in m.hosts && |outcomes| > 0 {
      RoundKeepsValid(m, hostId, delay, maxAttempts, outcomes[0]);
      var round := ReconnectRound(m, hostId, delay, maxAttempts, outcomes[0]);
      if round.Retry? {
        ReconnectKeepsValid(round.state, hostId, round.nextDelay, maxAttempts, outcomes[1..]);
      }
    }
  }

  // ---------------------------------------------------------------------
  // The manager object

  /** Between the collection of a removed host's share ids and their
      deletion: the shares still present are exactly the other hosts'
      shares and the ids not deleted yet. */
  ghost predicate Removing(orig: map<ShareId, RegisteredShare>, hostId: string, ids: set<ShareId>, cur: map<ShareId, RegisteredShare>) {
    && (forall id :: id in ids ==> id in orig && orig[id].hostId == hostId)
    && cur == map id | id in orig && (orig[id].hostId != hostId || id in ids) :: orig[id]
  }

  lemma RemovingStart(orig: map<ShareId, RegisteredShare>, hostId: string)
    ensures Removing(orig, hostId, (set id | id in orig && orig[id].hostId == hostId), orig)
  {
    var ids := set id | id in orig && orig[id].hostId == hostId;
    assert orig == map id | id in orig && (orig[id].hostId != hostId || id in ids) :: orig[id];
  }

  lemma RemovingStep(orig: map<ShareId, RegisteredShare>, hostId: string, ids: set<ShareId>, cur: map<ShareId, RegisteredShare>, id: ShareId)
    requires Removing(orig, hostId, ids, cur) && id in ids
    ensures Removing(orig, hostId, ids - {id}, cur - {id})
  {
    var rest := ids - {id};
    assert cur - {id} == map i | i in orig && (orig[i].hostId != hostId || i in rest) :: orig[i];
  }

  class ConnectionManager {
    var hosts: map<string, ManagedHost>
    var shares: map<ShareId, RegisteredShare>
    var shareIndex: map<u16, ShareId>
    var nextShareIndex: u16

    function State(): Manager
      reads this
    {
      Manager(hosts, shares, shareIndex, nextShareIndex)
    }

    /** `ConnectionManager::new`: no hosts, no shares, index counter at 1. */
    constructor()
      ensures State() == NEW_MANAGER
    {
      hosts, shares, shareIndex, nextShareIndex := map[], map[], map[], FIRST_SHARE_INDEX;
    }

    /** `register_share`, both halves in one call. Run alone, the host
        cannot disappear between them, so the rollback of `Commit` does
        not arise here; `RaceRollsBack` covers the interleaving. */
    method RegisterShare(hostId: string, share: ShareInfo) returns (r: Option<u16>)
      modifies this
      ensures (State(), r) == Register(old(State()), hostId, share)
    {
      if hostId !in hosts {
        return None;
      }
      var idx := nextShareIndex;
      if idx == EXHAUSTED_INDEX {
        return None;
      }
      nextShareIndex := idx + 1;
      shareIndex := shareIndex[idx := share.id];
      var h := hosts[hostId];
      hosts := hosts[hostId := h.(shares := h.shares + [share])];
      shares := shares[share.id := RegisteredShare(share, idx, hostId)];
      return Some(idx);
    }

    /** `remove_host`: collect the ids of the host's shares, then delete
        them one at a time. */
    method RemoveHost(hostId: string)
      modifies this
      ensures State() == RemoveHostStep(old(State()), hostId)
    {
      if hostId in hosts {
        hosts := hosts - {hostId};
        ghost var orig := shares;
        var ids := set id | id in shares && shares[id].hostId == hostId;
        RemovingStart(orig, hostId);
        while ids != {}
          invariant Removing(orig, hostId, ids, shares)
          invariant hosts == old(hosts) - {hostId}
          invariant shareIndex == old(shareIndex) && nextShareIndex == old(nextShareIndex)
          decreases |ids|
        {
          var id :| id in ids;
          RemovingStep(orig, hostId, ids, shares, id);
          shares := shares - {id};
          ids := ids - {id};
        }
        RemovingDone(orig, hostId, shares);
      }
    }

    /** `connect_host` with the network outcome given. */
    method ConnectHost(hostId: string, outcome: ConnectOutcome) returns (ok: bool)
      modifies this
      ensures State() == Connect(old(State()), hostId, outcome).0 && ok == Connect(old(State()), hostId, outcome).1
    {
      if hostId !in hosts {
        return false;
      }
      var h := hosts[hostId];
      match outcome {
        case Unreachable =>
          hosts := hosts[hostId := h.(status := Failed)];
          return false;
        case HandshakeFailed =>
          return false;
        case Handshook(name, announced) =>
          hosts := hosts[hostId := h.(status := Connected, name := name, attempts := 0)];
          ghost var start := State();
          for i := 0 to |announced|
            invariant RegisterAll(State(), hostId, announced[i..]) == RegisterAll(start, hostId, announced)
          {
            RegisterAllUnfold(State(), hostId, announced, i);
            var registered := RegisterShare(hostId, announced[i]);
          }
          assert announced[|announced|..] == [];
          return true;
      }
    }

    /** `add_host`: store the host as connecting, then connect. */
    method AddHost(hostId: string, config: HostConnectionConfig, outcome: ConnectOutcome) returns (ok: bool)
      modifies this
      ensures (State(), ok) == AddHostStep(old(State()), hostId, config, outcome)
    {
      hosts := hosts[hostId := NewHost(config).(status := Connecting)];
      ok := ConnectHost(hostId, outcome);
    }

    /** `attempt_reconnect`, following the loop for as many attempts as
        there are outcomes. */
    method AttemptReconnect(hostId: string, outcomes: seq<ConnectOutcome>) returns (slept: seq<nat>)
      modifies this
      ensures (State(), slept) == AttemptReconnectStep(old(State()), hostId, outcomes)
    {
      slept := [];
      if hostId !in hosts {
        return;
      }
      var currentDelay: nat := hosts[hostId].reconnect.initialDelay;
      var maxAttempts := hosts[hostId].reconnect.maxAttempts;
      ghost var goal := AttemptReconnectStep(State(), hostId, outcomes);
      ResumesStart(State(), hostId, currentDelay, maxAttempts, outcomes);
      var k := 0;
      while k < |outcomes|
        invariant k <= |outcomes|
        invariant Resumes(goal, State(), hostId, currentDelay, maxAttempts, outcomes[k..], slept)
        decreases |outcomes| - k
      {
        if hostId !in hosts {
          return;
        }
        ghost var st := State();
        ResumesRound(goal, st, hostId, currentDelay, maxAttempts, outcomes[k..], slept);
        assert outcomes[k..][0] == outcomes[k];
        assert outcomes[k..][1..] == outcomes[k + 1..];
        var gaveUp, connected, nextDelay := ReconnectOnce(hostId, currentDelay, maxAttempts, outcomes[k]);
        if gaveUp {
          return;
        }
        slept := slept + [currentDelay];
        if connected {
          return;
        }
        currentDelay := nextDelay;
        k := k + 1;
      }
      ResumesEnd(goal, State(), hostId, currentDelay, maxAttempts, outcomes[k..], slept);
    }

    /** One round of the reconnect loop: count the attempt, give up past
        a positive limit, otherwise connect and compute the next delay. */
    method ReconnectOnce(hostId: string, delay: nat, maxAttempts: u32, outcome: ConnectOutcome)
      returns (gaveUp: bool, connected: bool, nextDelay: nat)
      requires hostId in hosts
      modifies this
      ensures var round := ReconnectRound(old(State()), hostId, delay, maxAttempts, outcome);
        && State() == round.state
        && gaveUp == round.GaveUp?
        && connected == round.Reconnected?
        && (round.Retry? ==> nextDelay == round.nextDelay)
    {
      ghost var st := State();
      var h := hosts[hostId];
      var attempt := h.attempts + 1;
      hosts := hosts[hostId := h.(attempts := attempt)];
      ghost var m1 := State();
      assert m1 == Counted(st, hostId);
      if maxAttempts > 0 && attempt > maxAttempts {
        hosts := hosts[hostId := h.(attempts := attempt, status := Failed)];
        GiveUpByParts(st, hostId, delay, maxAttempts, outcome, m1, State());
        return true, false, delay;
      }
      connected := ConnectHost(hostId, outcome);
      RoundByParts(st, hostId, delay, maxAttempts, outcome, m1, State(), connected);
      gaveUp := false;
      var maxDelay := hosts[hostId].reconnect.maxDelay;
      nextDelay := Min(2 * delay, maxDelay);
    }

    /** `handle_connection_failure`. */
    method HandleConnectionFailure(hostId: string, outcomes: seq<ConnectOutcome>) returns (slept: seq<nat>)
      modifies this
      ensures (State(), slept) == ConnectionFailureStep(old(State()), hostId, outcomes)
    {
      slept := [];
      if hostId !in hosts {
        return;
      }
      var h := hosts[hostId];
      hosts := hosts[hostId := h.(status := Reconnecting)];
      if h.reconnect.enabled {
        slept := AttemptReconnect(hostId, outcomes);
      }
    }
  }

  lemma RegisterAllUnfold(m: Manager, hostId: string, shares: seq<ShareInfo>, i: nat)
    requires i < |shares|
    ensures RegisterAll(m, hostId, shares[i..]) == RegisterAll(Register(m, hostId, shares[i]).0, hostId, shares[i + 1..])
  {
    assert shares[i..][0] == shares[i];
    assert shares[i..][1..] == shares[i + 1..];
  }

  /** The rest of the reconnect loop run from `state` completes `slept` to
      the whole run `goal`. */
  ghost predicate Resumes(goal: (Manager, seq<nat>), state: Manager, hostId: string, delay: nat, maxAttempts: u32,
                          rest: seq<ConnectOutcome>, slept: seq<nat>) {
    var r := Reconnect(state, hostId, delay, maxAttempts, rest);
    goal == (r.0, slept + r.1)
  }

  /** Where the rest of the loop goes after one round. */
  lemma ResumesRound(goal: (Manager, seq<nat>), st: Manager, hostId: string, delay: nat, maxAttempts: u32,
                     rest: seq<ConnectOutcome>, slept: seq<nat>)
    requires Resumes(goal, st, hostId, delay, maxAttempts, rest, slept)
    requires hostId in st.hosts && |rest| > 0
    ensures var round := ReconnectRound(st, hostId, delay, maxAttempts, rest[0]);
      match round
      case GaveUp(s) => goal == (s, slept)
      case Reconnected(s) => goal == (s, slept + [delay])
      case Retry(s, next) => Resumes(goal, s, hostId, next, maxAttempts, rest[1..], slept + [delay])
  {
    var round := ReconnectRound(st, hostId, delay, maxAttempts, rest[0]);
    match round
    case GaveUp(s) =>
      assert slept + [] == slept;
    case Reconnected(s) =>
    case Retry(s, next) =>
      var r := Reconnect(s, hostId, next, maxAttempts, rest[1..]);
      assert slept + ([delay] + r.1) == (slept + [delay]) + r.1;
  }

  lemma RemovingDone(orig: map<ShareId, RegisteredShare>, hostId: string, cur: map<ShareId, RegisteredShare>)
    requires Removing(orig, hostId, {}, cur)
    ensures cur == map id | id in orig && orig[id].hostId != hostId :: orig[id]
  {
  }

  lemma ResumesStart(st: Manager, hostId: string, delay: nat, maxAttempts: u32, outcomes: seq<ConnectOutcome>)
    ensures Resumes(Reconnect(st, hostId, delay, maxAttempts, outcomes), st, hostId, delay, maxAttempts, outcomes[0..], [])
  {
    assert outcomes[0..] == outcomes;
    assert [] + Reconnect(st, hostId, delay, maxAttempts, outcomes).1 == Reconnect(st, hostId, delay, maxAttempts, outcomes).1;
  }

  lemma ResumesEnd(goal: (Manager, seq<nat>), st: Manager, hostId: string, delay: nat, maxAttempts: u32,
                   rest: seq<ConnectOutcome>, slept: seq<nat>)
    requires Resumes(goal, st, hostId, delay, maxAttempts, rest, slept)
    requires hostId !in st.hosts || |rest| == 0
    ensures goal == (st, slept)
  {
    assert slept + [] == slept;
  }

  /** A round past a positive limit ends with the host marked `Failed`. */
  lemma GiveUpByParts(st: Manager, hostId: string, delay: nat, maxAttempts: u32, outcome: ConnectOutcome,
                      m1: Manager, m2: Manager)
    requires hostId in st.hosts
    requires maxAttempts > 0 && st.hosts[hostId].attempts + 1 > maxAttempts
    requires m1 == Counted(st, hostId)
    requires m2 == m1.(hosts := m1.hosts[hostId := st.hosts[hostId].(attempts := st.hosts[hostId].attempts + 1, status := Failed)])
    ensures ReconnectRound(st, hostId, delay, maxAttempts, outcome) == GaveUp(m2)
  {
  }

  /** A round that did not give up ends as the connection attempt did. */
  lemma RoundByParts(st: Manager, hostId: string, delay: nat, maxAttempts: u32, outcome: ConnectOutcome,
                     m1: Manager, m2: Manager, connected: bool)
    requires hostId in st.hosts
    requires !(maxAttempts > 0 && st.hosts[hostId].attempts + 1 > maxAttempts)
    requires m1 == Counted(st, hostId)
    requires m2 == Connect(m1, hostId, outcome).0 && connected == Connect(m1, hostId, outcome).1
    ensures connected ==> ReconnectRound(st, hostId, delay, maxAttempts, outcome) == Reconnected(m2)
    ensures !connected ==>
      ReconnectRound(st, hostId, delay, maxAttempts, outcome) == Retry(m2, Min(2 * delay, m2.hosts[hostId].reconnect.maxDelay))
  {
  }
}
