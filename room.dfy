/** A signalling room (crates/teleport-signal/src/room.rs): the peers that
    joined under one join code, which of them hosts, and when the room last
    saw activity. Instants are nanoseconds passed in as `now`. */
module Rooms {
  import opened Ints
  import opened Wrappers
  import opened Messages
  import Collections

  /** At most this many peers share a room (crates/teleport-signal/src/lib.rs). */
  const MAX_PEERS_PER_ROOM: nat := 10
  const NANOS_PER_SEC: nat := 1_000_000_000

  datatype RoomError = RoomFull | PeerNotFound

  /** A room's state: the peers by id and the host's id, if any. */
  datatype RoomState = RoomState(joinCode: string, peers: map<string, PeerInfo>, hostId: Option<string>, lastActivity: nat)

  /** A room holds at most `MAX_PEERS_PER_ROOM` peers and its host is one of them. */
  ghost predicate RoomValid(st: RoomState) {
    |st.peers| <= MAX_PEERS_PER_ROOM && (st.hostId.Some? ==> st.hostId.value in st.peers)
  }

  /** `Room::new`: no peers and no host. */
  function NewRoom(joinCode: string, now: nat): (st: RoomState)
    ensures RoomValid(st)
  {
    RoomState(joinCode, map[], None, now)
  }

  /** `add_peer`: refused when the room is full; otherwise the peer is stored
      under its id (replacing one with the same id), becomes the host if it
      says it is one, and the room is touched. */
  function AddPeerStep(st: RoomState, info: PeerInfo, now: nat): (r: (RoomState, Result<(), RoomError>))
  {
    if |st.peers| >= MAX_PEERS_PER_ROOM then (st, Err(RoomError.RoomFull))
    else
      var host := if info.isHost then Some(info.peerId) else st.hostId;
      (RoomState(st.joinCode, st.peers[info.peerId := info], host, now), Ok(()))
  }

  /** `remove_peer`: the peer's information, if it was there; the host id
      is cleared when it was the host's, and the room is touched. */
  function RemovePeerStep(st: RoomState, peerId: string, now: nat): (r: (RoomState, Option<PeerInfo>))
  {
    var host := if st.hostId == Some(peerId) then None else st.hostId;
    (RoomState(st.joinCode, st.peers - {peerId}, host, now),
     if peerId in st.peers then Some(st.peers[peerId]) else None)
  }

  /** `update_peer`: replaces a present peer's information and touches the
      room; an unknown id changes nothing. */
  function UpdatePeerStep(st: RoomState, info: PeerInfo, now: nat): (r: (RoomState, bool))
  {
    if info.peerId in st.peers then (st.(peers := st.peers[info.peerId := info], lastActivity := now), true)
    else (st, false)
  }

  function GetPeer(st: RoomState, peerId: string): (r: Option<PeerInfo>)
    ensures r.Some? <==> peerId in st.peers
    ensures r.Some? ==> r.value == st.peers[peerId]
  {
    if peerId in st.peers then Some(st.peers[peerId]) else None
  }

  /** `get_host`: the host's information, when the host id names a present peer. */
  function Host(st: RoomState): (r: Option<PeerInfo>)
    ensures r.Some? <==> st.hostId.Some? && st.hostId.value in st.peers
  {
    if st.hostId.Some? then GetPeer(st, st.hostId.value) else None
  }

  /** `is_empty`: no peer is present. */
  function IsEmpty(st: RoomState): (r: bool)
    ensures r <==> |st.peers| == 0
    ensures r <==> forall id :: id !in st.peers
  {
    assert |st.peers| > 0 ==> exists id :: id in st.peers by {
      if |st.peers| > 0 {
        var id :| id in st.peers.Keys;
      }
    }
    |st.peers| == 0
  }

  /** `is_idle`: more whole seconds than `timeoutSecs` have passed since the
      last activity (an earlier `now` counts as none). */
  function IsIdle(st: RoomState, now: nat, timeoutSecs: nat): (r: bool)
    ensures r <==> now >= st.lastActivity + (timeoutSecs + 1) * NANOS_PER_SEC
  {
    WholeSeconds(SatSub(now, st.lastActivity), timeoutSecs + 1);
    SatSub(now, st.lastActivity) / NANOS_PER_SEC > timeoutSecs
  }

  /** At least `q` whole seconds are in `d` nanoseconds exactly when `d`
      reaches `q` seconds. */
  lemma WholeSeconds(d: nat, q: nat)
    ensures d / NANOS_PER_SEC >= q <==> d >= q * NANOS_PER_SEC
  {
    var s := d / NANOS_PER_SEC;
    assert d == s * NANOS_PER_SEC + d % NANOS_PER_SEC;
    if s >= q {
      assert s * NANOS_PER_SEC >= q * NANOS_PER_SEC;
    } else {
      assert (s + 1) * NANOS_PER_SEC <= q * NANOS_PER_SEC;
    }
  }

  /** A full room refuses and stays as it was; any other room accepts. */
  lemma AddPeerRefusesWhenFull(st: RoomState, info: PeerInfo, now: nat)
    ensures AddPeerStep(st, info, now).1.Err? <==> |st.peers| >= MAX_PEERS_PER_ROOM
    ensures |st.peers| >= MAX_PEERS_PER_ROOM ==> AddPeerStep(st, info, now) == (st, Err(RoomError.RoomFull))
  {
  }

  /** Adding keeps the room valid, so a room never exceeds its peer limit. */
  lemma AddPeerKeepsValid(st: RoomState, info: PeerInfo, now: nat)
    requires RoomValid(st)
    ensures RoomValid(AddPeerStep(st, info, now).0)
  {
    if |st.peers| < MAX_PEERS_PER_ROOM {
      var peers := st.peers[info.peerId := info];
      assert peers.Keys == st.peers.Keys + {info.peerId};
      assert |peers| <= |st.peers| + 1;
    }
  }

  /** An accepted peer can be found by its id; an accepted host is the
      room's host. */
  lemma AddedPeerPresent(st: RoomState, info: PeerInfo, now: nat)
    requires AddPeerStep(st, info, now).1.Ok?
    ensures GetPeer(AddPeerStep(st, info, now).0, info.peerId) == Some(info)
    ensures info.isHost ==> Host(AddPeerStep(st, info, now).0) == Some(info)
  {
  }

  /** Removing hands back the removed information, leaves the peer absent,
      and a removed host leaves the room without one. */
  lemma RemovePeerResult(st: RoomState, peerId: string, now: nat)
    ensures var (next, removed) := RemovePeerStep(st, peerId, now);
      removed == GetPeer(st, peerId) && peerId !in next.peers
      && (st.hostId == Some(peerId) ==> Host(next) == None)
      && next.peers.Keys == st.peers.Keys - {peerId}
  {
  }

  lemma RemovePeerKeepsValid(st: RoomState, peerId: string, now: nat)
    requires RoomValid(st)
    ensures RoomValid(RemovePeerStep(st, peerId, now).0)
  {
    var next := RemovePeerStep(st, peerId, now).0;
    assert next.peers.Keys <= st.peers.Keys;
    Collections.SubsetCard(next.peers.Keys, st.peers.Keys);
  }

  /** Updating an unknown peer reports false and changes nothing; a known
      one has its information replaced and nothing else changes. */
  lemma UpdatePeerResult(st: RoomState, info: PeerInfo, now: nat)
    ensures info.peerId !in st.peers ==> UpdatePeerStep(st, info, now) == (st, false)
    ensures info.peerId in st.peers ==>
      var next := UpdatePeerStep(st, info, now).0;
      UpdatePeerStep(st, info, now).1 && next.peers.Keys == st.peers.Keys && GetPeer(next, info.peerId) == Some(info)
      && next.hostId == st.hostId && RoomValid(st) == RoomValid(next)
  {
    if info.peerId in st.peers {
      assert st.peers[info.peerId := info].Keys == st.peers.Keys;
    }
  }

  /** The add/remove test: a host and a client join; the client leaves, then
      the host, after which the room is empty and has no host. */
  lemma AddRemoveExample(host: PeerInfo, client: PeerInfo, now: nat)
    requires host.peerId == "host" && host.isHost && client.peerId == "client" && !client.isHost
    ensures var r0 := NewRoom("ABC-123", now);
      IsEmpty(r0) && Host(r0) == None
      && var r1 := AddPeerStep(r0, host, now);
      r1.1.Ok? && |r1.0.peers| == 1 && Host(r1.0) == Some(host)
      && var r2 := AddPeerStep(r1.0, client, now);
      r2.1.Ok? && |r2.0.peers| == 2
      && var r3 := RemovePeerStep(r2.0, "client", now).0;
      |r3.peers| == 1
      && var r4 := RemovePeerStep(r3, "host", now).0;
      IsEmpty(r4) && Host(r4) == None
  {
    var r1 := AddPeerStep(NewRoom("ABC-123", now), host, now).0;
    assert r1.peers.Keys == {"host"};
    var r2 := AddPeerStep(r1, client, now).0;
    assert r2.peers.Keys == {"host", "client"};
    var r3 := RemovePeerStep(r2, "client", now).0;
    assert r3.peers.Keys == {"host"};
    var r4 := RemovePeerStep(r3, "host", now).0;
    assert r4.peers.Keys == {};
  }

  /** `Room`: the room as an object whose methods update its fields. */
  class Room {
    const joinCode: string
    var peers: map<string, PeerInfo>
    var hostId: Option<string>
    var lastActivity: nat

    function State(): RoomState
      reads this
    {
      RoomState(joinCode, peers, hostId, lastActivity)
    }

    constructor(joinCode: string, now: nat)
      ensures State() == NewRoom(joinCode, now)
    {
      this.joinCode := joinCode;
      peers := map[];
      hostId := None;
      lastActivity := now;
    }

    method AddPeer(info: PeerInfo, now: nat) returns (r: Result<(), RoomError>)
      modifies this
      ensures (State(), r) == AddPeerStep(old(State()), info, now)
    {
      if |peers| >= MAX_PEERS_PER_ROOM {
        return Err(RoomError.RoomFull);
      }
      peers := peers[info.peerId := info];
      if info.isHost {
        hostId := Some(info.peerId);
      }
      lastActivity := now;
      r := Ok(());
    }

    method RemovePeer(peerId: string, now: nat) returns (removed: Option<PeerInfo>)
      modifies this
      ensures (State(), removed) == RemovePeerStep(old(State()), peerId, now)
    {
      lastActivity := now;
      if hostId == Some(peerId) {
        hostId := None;
      }
      removed := if peerId in peers then Some(peers[peerId]) else None;
      peers := peers - {peerId};
    }

    method UpdatePeer(info: PeerInfo, now: nat) returns (updated: bool)
      modifies this
      ensures (State(), updated) == UpdatePeerStep(old(State()), info, now)
    {
      if info.peerId in peers {
        peers := peers[info.peerId := info];
        lastActivity := now;
        return true;
      }
      return false;
    }

    /** `touch`: record activity now. */
    method Touch(now: nat)
      modifies this
      ensures State() == old(State()).(lastActivity := now)
    {
      lastActivity := now;
    }
  }
}
