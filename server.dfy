/** The signal server's room state machine
    (crates/teleport-signal/src/server.rs): the rooms by join code, the room
    each peer is in, and how one connection's messages change them. The
    WebSocket transport and the relay channels are not part of this model;
    `now` and the random bytes of a generated join code are parameters. */
module Signal {
  import opened Ints
  import opened Wrappers
  import opened Messages
  import opened Rooms
  import Crypto

  /** Rooms idle for longer than this many seconds are removed (crates/teleport-signal/src/lib.rs). */
  const ROOM_IDLE_TIMEOUT_SECS: nat := 300

  /** The shared state: rooms by join code and each peer's room. */
  datatype ServerState = ServerState(rooms: map<string, RoomState>, peerRooms: map<string, string>)

  /** Every room is stored under its own join code, keeps its peer limit
      and has at least one peer. */
  ghost predicate ServerValid(st: ServerState) {
    forall code | code in st.rooms :: st.rooms[code].joinCode == code && RoomValid(st.rooms[code]) && |st.rooms[code].peers| > 0
  }

  /** What one message does: the new shared state, the reply (if any) and
      the connection's current room. */
  datatype Outcome = Outcome(state: ServerState, reply: Option<SignalMessage>, current: Option<string>)

  function Refuse(st: ServerState, current: Option<string>, code: ErrorCode, message: string): (o: Outcome)
    ensures o.state == st && o.current == current && o.reply == Some(Error(code, message))
  {
    Outcome(st, Some(Error(code, message)), current)
  }

  /** The code a new room gets: the requested one normalised if it
      validates, otherwise a fresh one from the random bytes. */
  function ChosenCode(requested: Option<string>, random: seq<u8>): (code: string)
    requires |random| == Crypto.JOIN_CODE_LENGTH
    ensures Crypto.NormalizeJoinCode(code) == code
  {
    Crypto.NormalizeIdempotent(if requested.Some? then requested.value else []);
    Crypto.GeneratedCodeNormalizes(random);
    Crypto.NormalizeIdempotent(Crypto.GenerateJoinCode(random));
    if requested.Some? && Crypto.ValidateJoinCode(requested.value) then Crypto.NormalizeJoinCode(requested.value)
    else Crypto.NormalizeJoinCode(Crypto.GenerateJoinCode(random))
  }

  /** The creator's entry: the information it sent, or a minimal one, always
      with the server's id for it, the address it connected from, and as host. */
  function CreatorInfo(peerInfo: Option<PeerInfo>, peerId: string, peerAddr: SocketAddr): (info: PeerInfo)
    ensures info.peerId == peerId && info.publicAddr == Some(peerAddr) && info.isHost
    ensures peerInfo.Some? ==> info.localAddrs == peerInfo.value.localAddrs && info.quicPort == peerInfo.value.quicPort
    ensures peerInfo.None? ==> info.localAddrs == [] && info.quicPort == DEFAULT_QUIC_PORT
  {
    match peerInfo
    case Some(p) => p.(peerId := peerId, publicAddr := Some(peerAddr), isHost := true)
    case None => PeerInfo(peerId, Some(peerAddr), [], DEFAULT_QUIC_PORT, true)
  }

  /** `CreateRoom`. */
  function CreateStep(st: ServerState, requested: Option<string>, peerInfo: Option<PeerInfo>, peerId: string,
                      peerAddr: SocketAddr, current: Option<string>, random: seq<u8>, now: nat): Outcome
    requires |random| == Crypto.JOIN_CODE_LENGTH
  {
    if current.Some? then Refuse(st, current, AlreadyInRoom, "Already in a room")
    else CreateUnder(st, ChosenCode(requested, random), CreatorInfo(peerInfo, peerId, peerAddr), now)
  }

  /** `CreateRoom` outside a room, once the code is chosen. */
  function CreateUnder(st: ServerState, code: string, info: PeerInfo, now: nat): Outcome {
    if code in st.rooms then Refuse(st, None, InvalidJoinCode, "Unable to create room with this code")
    else
      var (room, added) := AddPeerStep(NewRoom(code, now), info, now);
      if added.Err? then Refuse(st, None, InternalError, "Failed to create room")
      else Outcome(ServerState(st.rooms[code := room], st.peerRooms[info.peerId := code]), Some(RoomCreated(code)), Some(code))
  }

  /** The joining peer's entry: the server's id and the connection's address. */
  function JoinerInfo(peerId: string, peerAddr: SocketAddr): PeerInfo {
    PeerInfo(peerId, Some(peerAddr), [], DEFAULT_QUIC_PORT, false)
  }

  /** `JoinRoom`. */
  function JoinStep(st: ServerState, joinCode: string, peerId: string, peerAddr: SocketAddr, current: Option<string>, now: nat): Outcome
  {
    if current.Some? then Refuse(st, current, AlreadyInRoom, "Already in a room")
    else
      var code := Crypto.NormalizeJoinCode(joinCode);
      if code !in st.rooms then Refuse(st, current, ErrorCode.RoomNotFound, "Unable to join room")
      else
        var hostInfo := Host(st.rooms[code]);
        var (room, added) := AddPeerStep(st.rooms[code], JoinerInfo(peerId, peerAddr), now);
        if added.Err? then Refuse(st, current, ErrorCode.RoomFull, "Unable to join room")
        else Outcome(ServerState(st.rooms[code := room], st.peerRooms[peerId := code]), Some(JoinedRoom(code, hostInfo)), Some(code))
  }

  /** `leave_room`: forget the peer's room, remove the peer from it, and drop
      the room once it is empty. */
  function LeaveStep(st: ServerState, peerId: string, code: string, now: nat): ServerState
  {
    var peerRooms := st.peerRooms - {peerId};
    if code !in st.rooms then ServerState(st.rooms, peerRooms)
    else
      var room := RemovePeerStep(st.rooms[code], peerId, now).0;
      if IsEmpty(room) then ServerState(st.rooms - {code}, peerRooms)
      else ServerState(st.rooms[code := room], peerRooms)
  }

  /** `PeerInfo`: the sender's information, with its server id and
      connection address, replaces its entry in its room. */
  function UpdateInfoStep(st: ServerState, info: PeerInfo, peerId: string, peerAddr: SocketAddr, current: Option<string>, now: nat): ServerState
  {
    var info' := info.(publicAddr := Some(peerAddr), peerId := peerId);
    if current.Some? && current.value in st.rooms
    then st.(rooms := st.rooms[current.value := UpdatePeerStep(st.rooms[current.value], info', now).0])
    else st
  }

  /** `handle_message`. */
  function HandleStep(st: ServerState, msg: SignalMessage, peerId: string, peerAddr: SocketAddr, current: Option<string>,
                      random: seq<u8>, now: nat): Outcome
    requires |random| == Crypto.JOIN_CODE_LENGTH
  {
    match msg
    case CreateRoom(requested, peerInfo) => CreateStep(st, requested, peerInfo, peerId, peerAddr, current, random, now)
    case JoinRoom(joinCode) => JoinStep(st, joinCode, peerId, peerAddr, current, now)
    case LeaveRoom =>
      if current.Some? then Outcome(LeaveStep(st, peerId, current.value, now), None, None)
      else Outcome(st, None, None)
    case Ping(t) => Outcome(st, Some(Pong(t)), current)
    case PeerInfoUpdate(info) => Outcome(UpdateInfoStep(st, info, peerId, peerAddr, current, now), None, current)
    case _ => Refuse(st, current, InternalError, "Unhandled message type")
  }

  // ---------------------------------------------------------------------
  // What the messages promise

  /** A connection already in a room can neither create nor join one, and
      nothing changes. */
  lemma AlreadyInRoomChangesNothing(st: ServerState, msg: SignalMessage, peerId: string, peerAddr: SocketAddr,
                                    current: Option<string>, random: seq<u8>, now: nat)
    requires |random| == Crypto.JOIN_CODE_LENGTH
    requires current.Some? && (msg.CreateRoom? || msg.JoinRoom?)
    ensures HandleStep(st, msg, peerId, peerAddr, current, random, now) == Refuse(st, current, AlreadyInRoom, "Already in a room")
  {
  }

  /** `CreateRoom` outside a room: a taken code is refused as an invalid
      code without any change; otherwise the room is created under the code
      with the creator as its only peer and its host, and the creator is
      recorded in it. */
  lemma CreateRoomResult(st: ServerState, requested: Option<string>, peerInfo: Option<PeerInfo>, peerId: string,
                         peerAddr: SocketAddr, random: seq<u8>, now: nat)
    requires |random| == Crypto.JOIN_CODE_LENGTH
    ensures var code := ChosenCode(requested, random);
      var o := HandleStep(st, CreateRoom(requested, peerInfo), peerId, peerAddr, None, random, now);
      (code in st.rooms ==> o == Refuse(st, None, InvalidJoinCode, "Unable to create room with this code"))
      && (code !in st.rooms ==>
            o.reply == Some(RoomCreated(code)) && o.current == Some(code)
            && o.state.peerRooms == st.peerRooms[peerId := code]
            && o.state.rooms.Keys == st.rooms.Keys + {code}
            && (forall c | c in st.rooms :: o.state.rooms[c] == st.rooms[c])
            && o.state.rooms[code].peers == map[peerId := CreatorInfo(peerInfo, peerId, peerAddr)]
            && Host(o.state.rooms[code]) == Some(CreatorInfo(peerInfo, peerId, peerAddr)))
  {
    CreateUnderResult(st, ChosenCode(requested, random), CreatorInfo(peerInfo, peerId, peerAddr), now);
  }

  lemma CreateUnderResult(st: ServerState, code: string, info: PeerInfo, now: nat)
    requires info.isHost
    ensures var o := CreateUnder(st, code, info, now);
      (code in st.rooms ==> o == Refuse(st, None, InvalidJoinCode, "Unable to create room with this code"))
      && (code !in st.rooms ==>
            o.reply == Some(RoomCreated(code)) && o.current == Some(code)
            && o.state.peerRooms == st.peerRooms[info.peerId := code]
            && o.state.rooms.Keys == st.rooms.Keys + {code}
            && (forall c | c in st.rooms :: o.state.rooms[c] == st.rooms[c])
            && o.state.rooms[code].peers == map[info.peerId := info]
            && Host(o.state.rooms[code]) == Some(info))
  {
  }

  /** The code of a new room: a requested code that validates, normalised;
      anything else is replaced by a generated code. */
  lemma CreateRoomCode(requested: Option<string>, random: seq<u8>)
    requires |random| == Crypto.JOIN_CODE_LENGTH
    ensures requested.Some? && Crypto.ValidateJoinCode(requested.value) ==>
      ChosenCode(requested, random) == Crypto.NormalizeJoinCode(requested.value)
    ensures !(requested.Some? && Crypto.ValidateJoinCode(requested.value)) ==>
      ChosenCode(requested, random) == Crypto.PickChars(random)
    ensures Crypto.ValidateJoinCode(ChosenCode(requested, random))
  {
    Crypto.GeneratedCodeNormalizes(random);
    Crypto.GeneratedCodeValidates(random);
    if requested.Some? && Crypto.ValidateJoinCode(requested.value) {
      Crypto.NormalizeIdempotent(requested.value);
    }
  }

  /** `JoinRoom` outside a room: the code is normalised; a missing room is
      refused as not found, a full one as full, both without change; a
      successful join adds the peer and answers with the host as it was
      before the join. */
  lemma JoinRoomResult(st: ServerState, joinCode: string, peerId: string, peerAddr: SocketAddr, now: nat, random: seq<u8>)
    requires |random| == Crypto.JOIN_CODE_LENGTH
    ensures var code := Crypto.NormalizeJoinCode(joinCode);
      var o := HandleStep(st, JoinRoom(joinCode), peerId, peerAddr, None, random, now);
      (code !in st.rooms ==> o == Refuse(st, None, ErrorCode.RoomNotFound, "Unable to join room"))
      && (code in st.rooms && |st.rooms[code].peers| >= MAX_PEERS_PER_ROOM ==>
            o == Refuse(st, None, ErrorCode.RoomFull, "Unable to join room"))
      && (code in st.rooms && |st.rooms[code].peers| < MAX_PEERS_PER_ROOM ==>
            o.reply == Some(JoinedRoom(code, Host(st.rooms[code]))) && o.current == Some(code)
            && o.state.peerRooms == st.peerRooms[peerId := code]
            && o.state.rooms == st.rooms[code := AddPeerStep(st.rooms[code], JoinerInfo(peerId, peerAddr), now).0]
            && GetPeer(o.state.rooms[code], peerId) == Some(JoinerInfo(peerId, peerAddr)))
  {
  }

  /** `LeaveRoom` clears the connection's room and the peer's entry; the
      room loses the peer and is deleted once empty. */
  lemma LeaveRoomResult(st: ServerState, peerId: string, code: string, peerAddr: SocketAddr, now: nat, random: seq<u8>)
    requires |random| == Crypto.JOIN_CODE_LENGTH
    ensures var o := HandleStep(st, LeaveRoom, peerId, peerAddr, Some(code), random, now);
      o.reply == None && o.current == None && peerId !in o.state.peerRooms
      && o.state.peerRooms == st.peerRooms - {peerId}
      && (code in o.state.rooms ==> peerId !in o.state.rooms[code].peers && |o.state.rooms[code].peers| > 0)
      && (code in st.rooms && st.rooms[code].peers.Keys <= {peerId} ==> code !in o.state.rooms)
      && (forall c | c != code :: (c in o.state.rooms <==> c in st.rooms) && (c in st.rooms ==> o.state.rooms[c] == st.rooms[c]))
  {
    if code in st.rooms {
      var room := RemovePeerStep(st.rooms[code], peerId, now).0;
      RemovePeerResult(st.rooms[code], peerId, now);
      if st.rooms[code].peers.Keys <= {peerId} {
        assert room.peers.Keys == {};
      }
    }
  }

  /** A ping is answered with a pong carrying the same timestamp, and
      nothing changes. */
  lemma PingPong(st: ServerState, t: u64, peerId: string, peerAddr: SocketAddr, current: Option<string>, random: seq<u8>, now: nat)
    requires |random| == Crypto.JOIN_CODE_LENGTH
    ensures HandleStep(st, Ping(t), peerId, peerAddr, current, random, now) == Outcome(st, Some(Pong(t)), current)
  {
  }

  /** The server's invariant holds after every message. */
  lemma HandleKeepsValid(st: ServerState, msg: SignalMessage, peerId: string, peerAddr: SocketAddr, current: Option<string>,
                         random: seq<u8>, now: nat)
    requires |random| == Crypto.JOIN_CODE_LENGTH
    requires ServerValid(st)
    ensures ServerValid(HandleStep(st, msg, peerId, peerAddr, current, random, now).state)
  {
    match msg
    case CreateRoom(requested, peerInfo) => CreateKeepsValid(st, requested, peerInfo, peerId, peerAddr, current, random, now);
    case JoinRoom(joinCode) => JoinKeepsValid(st, joinCode, peerId, peerAddr, current, now);
    case LeaveRoom =>
      if current.Some? {
        LeaveKeepsValid(st, peerId, current.value, now);
      }
    case PeerInfoUpdate(info) => UpdateKeepsValid(st, info, peerId, peerAddr, current, now);
    case _ =>
  }

  lemma CreateKeepsValid(st: ServerState, requested: Option<string>, peerInfo: Option<PeerInfo>, peerId: string,
                         peerAddr: SocketAddr, current: Option<string>, random: seq<u8>, now: nat)
    requires |random| == Crypto.JOIN_CODE_LENGTH
    requires ServerValid(st)
    ensures ServerValid(CreateStep(st, requested, peerInfo, peerId, peerAddr, current, random, now).state)
  {
    AddPeerKeepsValid(NewRoom(ChosenCode(requested, random), now), CreatorInfo(peerInfo, peerId, peerAddr), now);
  }

  lemma JoinKeepsValid(st: ServerState, joinCode: string, peerId: string, peerAddr: SocketAddr, current: Option<string>, now: nat)
    requires ServerValid(st)
    ensures ServerValid(JoinStep(st, joinCode, peerId, peerAddr, current, now).state)
  {
    var code := Crypto.NormalizeJoinCode(joinCode);
    if code in st.rooms {
      AddPeerKeepsValid(st.rooms[code], JoinerInfo(peerId, peerAddr), now);
    }
  }

  lemma UpdateKeepsValid(st: ServerState, info: PeerInfo, peerId: string, peerAddr: SocketAddr, current: Option<string>, now: nat)
    requires ServerValid(st)
    ensures ServerValid(UpdateInfoStep(st, info, peerId, peerAddr, current, now))
  {
    if current.Some? && current.value in st.rooms {
      UpdatePeerResult(st.rooms[current.value], info.(publicAddr := Some(peerAddr), peerId := peerId), now);
    }
  }

  lemma LeaveKeepsValid(st: ServerState, peerId: string, code: string, now: nat)
    requires ServerValid(st)
    ensures ServerValid(LeaveStep(st, peerId, code, now))
  {
    if code in st.rooms {
      RemovePeerKeepsValid(st.rooms[code], peerId, now);
    }
  }

  // ---------------------------------------------------------------------
  // Relays

  /** What becomes of a relay request: forwarded to the target as coming
      from the sender, or refused. */
  datatype RelayOutcome = Forward(to: string, message: SignalMessage) | RelayRefused(reply: SignalMessage)

  /** The relay guard: the sender must be in a room and the target recorded
      in the same room. */
  function RelayStep(st: ServerState, current: Option<string>, from: string, to: string, payload: string): (r: RelayOutcome)
    ensures r.Forward? <==> current.Some? && to in st.peerRooms && st.peerRooms[to] == current.value
    ensures r.Forward? ==> r == Forward(to, Relayed(from, payload))
    ensures current.None? ==> r == RelayRefused(Error(NotInRoom, "Not in a room"))
  {
    if current.None? then RelayRefused(Error(NotInRoom, "Not in a room"))
    else if !(to in st.peerRooms && st.peerRooms[to] == current.value)
    then RelayRefused(Error(ErrorCode.RoomNotFound, "Target peer not in your room"))
    else Forward(to, Relayed(from, payload))
  }

  // ---------------------------------------------------------------------
  // The server

  /** The rooms that survive an idle sweep at `now`. */
  ghost function Active(rooms: map<string, RoomState>, now: nat): map<string, RoomState> {
    map code | code in rooms && !IsIdle(rooms[code], now, ROOM_IDLE_TIMEOUT_SECS) :: rooms[code]
  }

  /** `SignalServer`: the shared maps, mutated by the connections in turn. */
  class SignalServer {
    var rooms: map<string, RoomState>
    var peerRooms: map<string, string>

    ghost predicate Valid()
      reads this
    {
      ServerValid(ServerState(rooms, peerRooms))
    }

    constructor()
      ensures rooms == map[] && peerRooms == map[] && Valid()
    {
      rooms := map[];
      peerRooms := map[];
    }

    /** `handle_message`, with the connection's current room passed in and
        handed back. */
    method HandleMessage(msg: SignalMessage, peerId: string, peerAddr: SocketAddr, current: Option<string>,
                         random: seq<u8>, now: nat)
      returns (reply: Option<SignalMessage>, newCurrent: Option<string>)
      requires |random| == Crypto.JOIN_CODE_LENGTH
      modifies this
      ensures var o := HandleStep(old(ServerState(rooms, peerRooms)), msg, peerId, peerAddr, current, random, now);
        ServerState(rooms, peerRooms) == o.state && reply == o.reply && newCurrent == o.current
      ensures old(Valid()) ==> Valid()
    {
      ghost var before := ServerState(rooms, peerRooms);
      if old(Valid()) {
        HandleKeepsValid(before, msg, peerId, peerAddr, current, random, now);
      }
      var o := HandleStep(ServerState(rooms, peerRooms), msg, peerId, peerAddr, current, random, now);
      rooms, peerRooms := o.state.rooms, o.state.peerRooms;
      reply, newCurrent := o.reply, o.current;
    }

    /** `cleanup_idle_rooms`: collect the codes of the idle rooms, then
        remove them one by one. Exactly the idle rooms go. */
    method CleanupIdleRooms(now: nat)
      requires Valid()
      modifies this
      ensures rooms == Active(old(rooms), now) && peerRooms == old(peerRooms)
      ensures Valid()
    {
      var toRemove := set code | code in rooms && IsIdle(rooms[code], now, ROOM_IDLE_TIMEOUT_SECS) :: rooms[code].joinCode;
      ghost var start := rooms;
      SweepStart(start, toRemove, now);
      while toRemove != {}
        invariant Sweeping(start, rooms, toRemove, now) && start == old(rooms) && peerRooms == old(peerRooms)
        decreases |toRemove|
      {
        var code :| code in toRemove;
        SweepStep(start, rooms, toRemove, code, now);
        rooms := rooms - {code};
        toRemove := toRemove - {code};
      }
      SweepDone(start, rooms, now, peerRooms);
    }
  }

  /** Partway through the sweep: the rooms still to remove are idle ones, and
      the rooms left are the active ones and those still to remove. */
  ghost predicate Sweeping(start: map<string, RoomState>, rooms: map<string, RoomState>, toRemove: set<string>, now: nat) {
    && (forall code | code in toRemove :: code in start && IsIdle(start[code], now, ROOM_IDLE_TIMEOUT_SECS))
    && rooms.Keys <= start.Keys
    && (forall code | code in rooms :: rooms[code] == start[code])
    && (forall code | code in start :: code in rooms <==> code in toRemove || !IsIdle(start[code], now, ROOM_IDLE_TIMEOUT_SECS))
  }

  /** The collected join codes are exactly the keys of the idle rooms,
      because every room is stored under its own code. */
  lemma SweepStart(start: map<string, RoomState>, toRemove: set<string>, now: nat)
    requires forall code | code in start :: start[code].joinCode == code
    requires toRemove == set code | code in start && IsIdle(start[code], now, ROOM_IDLE_TIMEOUT_SECS) :: start[code].joinCode
    ensures Sweeping(start, start, toRemove, now)
  {
    forall code | code in toRemove ensures code in start && IsIdle(start[code], now, ROOM_IDLE_TIMEOUT_SECS) {
      var c :| c in start && IsIdle(start[c], now, ROOM_IDLE_TIMEOUT_SECS) && start[c].joinCode == code;
    }
    forall code | code in start && IsIdle(start[code], now, ROOM_IDLE_TIMEOUT_SECS) ensures code in toRemove {
      assert start[code].joinCode == code;
    }
  }

  lemma SweepStep(start: map<string, RoomState>, rooms: map<string, RoomState>, toRemove: set<string>, code: string, now: nat)
    requires Sweeping(start, rooms, toRemove, now) && code in toRemove
    ensures Sweeping(start, rooms - {code}, toRemove - {code}, now)
    ensures |toRemove - {code}| < |toRemove|
  {
  }

  lemma SweepDone(start: map<string, RoomState>, rooms: map<string, RoomState>, now: nat, peerRooms: map<string, string>)
    requires Sweeping(start, rooms, {}, now)
    requires ServerValid(ServerState(start, peerRooms))
    ensures rooms == Active(start, now)
    ensures ServerValid(ServerState(rooms, peerRooms))
  {
  }
}
