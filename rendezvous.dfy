/** Choosing the address to reach a peer at
    (crates/teleport-daemon/src/rendezvous.rs, `select_best_address`). */
module Rendezvous {
  import opened Ints
  import opened Wrappers
  import opened Messages

  datatype RendezvousError =
    | ConnectionFailed(message: string)
    | Timeout
    | ServerError(message: string)
    | PakeFailed
    | NoPeerAddress
    | WebSocket(message: string)

  /** Two IPv4 addresses in the same /24: the first three octets agree. */
  predicate SameLan(peer: SocketAddr, mine: SocketAddr) {
    peer.ip.V4? && mine.ip.V4? && peer.ip.a == mine.ip.a && peer.ip.b == mine.ip.b && peer.ip.c == mine.ip.c
  }

  /** Some address of ours is on the LAN of `peer`. */
  predicate OnOurLan(peer: SocketAddr, mine: seq<SocketAddr>) {
    exists j | 0 <= j < |mine| :: SameLan(peer, mine[j])
  }

  /** The first of the peer's addresses from position `i` on that is on our
      LAN, scanning in order. */
  function FirstOnLan(addrs: seq<SocketAddr>, mine: seq<SocketAddr>, i: nat): (r: Option<nat>)
    requires i <= |addrs|
    ensures r.Some? ==>
      (i <= r.value < |addrs| && OnOurLan(addrs[r.value], mine) && forall k | i <= k < r.value :: !OnOurLan(addrs[k], mine))
    ensures r.None? ==> forall k | i <= k < |addrs| :: !OnOurLan(addrs[k], mine)
    decreases |addrs| - i
  {
    if i == |addrs| then None
    else if OnOurLan(addrs[i], mine) then Some(i)
    else FirstOnLan(addrs, mine, i + 1)
  }

  /** `select_best_address`: the first of the peer's local addresses that
      shares a /24 with one of ours, as a LAN connection; else its public
      address; else its first local address; always at the peer's QUIC port. */
  function SelectBestAddress(peer: PeerInfo, mine: seq<SocketAddr>): (r: Result<(SocketAddr, bool), RendezvousError>)
    ensures r.Ok? ==> r.value.0.port == peer.quicPort
    ensures r.Err? <==> peer.publicAddr.None? && |peer.localAddrs| == 0
    ensures r.Err? ==> r.error == NoPeerAddress
    ensures r.Ok? && r.value.1 <==> exists i | 0 <= i < |peer.localAddrs| :: OnOurLan(peer.localAddrs[i], mine)
  {
    match FirstOnLan(peer.localAddrs, mine, 0)
    case Some(i) => Ok((SocketAddr(peer.localAddrs[i].ip, peer.quicPort), true))
    case None =>
      if peer.publicAddr.Some? then Ok((SocketAddr(peer.publicAddr.value.ip, peer.quicPort), false))
      else if |peer.localAddrs| > 0 then Ok((SocketAddr(peer.localAddrs[0].ip, peer.quicPort), false))
      else Err(NoPeerAddress)
  }

  /** Which address is chosen: the first LAN match in the peer's order, then
      the public address, then the first local address. */
  lemma SelectionOrder(peer: PeerInfo, mine: seq<SocketAddr>, i: nat)
    ensures i < |peer.localAddrs| && OnOurLan(peer.localAddrs[i], mine)
      && (forall k | 0 <= k < i :: !OnOurLan(peer.localAddrs[k], mine))
      ==> SelectBestAddress(peer, mine) == Ok((SocketAddr(peer.localAddrs[i].ip, peer.quicPort), true))
    ensures (forall k | 0 <= k < |peer.localAddrs| :: !OnOurLan(peer.localAddrs[k], mine)) && peer.publicAddr.Some?
      ==> SelectBestAddress(peer, mine) == Ok((SocketAddr(peer.publicAddr.value.ip, peer.quicPort), false))
    ensures (forall k | 0 <= k < |peer.localAddrs| :: !OnOurLan(peer.localAddrs[k], mine)) && peer.publicAddr.None?
      && |peer.localAddrs| > 0
      ==> SelectBestAddress(peer, mine) == Ok((SocketAddr(peer.localAddrs[0].ip, peer.quicPort), false))
  {
    var f := FirstOnLan(peer.localAddrs, mine, 0);
    if i < |peer.localAddrs| && OnOurLan(peer.localAddrs[i], mine) && (forall k | 0 <= k < i :: !OnOurLan(peer.localAddrs[k], mine)) {
      assert f.Some?;
    }
  }

  /** The addresses in IPv6 never count as the same LAN. */
  lemma Ipv6NeverLocal(peer: PeerInfo, mine: seq<SocketAddr>)
    requires forall k | 0 <= k < |peer.localAddrs| :: peer.localAddrs[k].ip.V6?
    ensures SelectBestAddress(peer, mine).Ok? ==> !SelectBestAddress(peer, mine).value.1
  {
  }
}
