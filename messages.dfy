/** The signalling vocabulary (crates/teleport-signal/src/messages.rs):
    socket addresses, peer information and the messages of the WebSocket
    protocol. Their JSON encoding is not part of this model. */
module Messages {
  import opened Ints
  import opened Wrappers

  /** An IP address: the four octets of IPv4, or IPv6 as its sixteen bytes. */
  datatype IpAddr = V4(a: u8, b: u8, c: u8, d: u8) | V6(bytes: seq<u8>)

  datatype SocketAddr = SocketAddr(ip: IpAddr, port: u16)

  /** What a peer tells the others so that they can reach it. */
  datatype PeerInfo = PeerInfo(
    peerId: string, publicAddr: Option<SocketAddr>, localAddrs: seq<SocketAddr>, quicPort: u16, isHost: bool)

  /** The port a peer listens on unless it says otherwise. */
  const DEFAULT_QUIC_PORT: u16 := 4433

  datatype ErrorCode = RoomNotFound | RoomFull | InvalidJoinCode | AlreadyInRoom | NotInRoom | RateLimited | InternalError

  /** The messages of the protocol. `CreateRoom` also carries the creator's
      peer information, which may be absent. */
  datatype SignalMessage =
    | CreateRoom(requestedCode: Option<string>, peerInfo: Option<PeerInfo>)
    | RoomCreated(joinCode: string)
    | JoinRoom(joinCode: string)
    | JoinedRoom(joinCode: string, hostInfo: Option<PeerInfo>)
    | PeerInfoUpdate(info: PeerInfo)
    | Relay(toPeerId: string, payload: string)
    | Relayed(fromPeerId: string, payload: string)
    | PeerConnected(peerId: string, info: PeerInfo)
    | PeerDisconnected(peerId: string)
    | LeaveRoom
    | Error(code: ErrorCode, message: string)
    | Ping(timestamp: u64)
    | Pong(timestamp: u64)
}
