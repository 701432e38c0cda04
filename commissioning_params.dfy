/** Building blocks the orchestrator uses to assemble what it hands to
    `PairDevice` and to its result callbacks: C strings turned into byte spans,
    the choice of network interface for a discovered peer, the shared ICD
    augmentation of the commissioning parameters, and the scoped identity
    reported to the result callbacks. */
module CommissioningParams {
  import opened MatterTypes

  /** strlen over a NUL-terminated buffer: the index of the first NUL. */
  function StrLen(s: seq<byte>): (n: nat)
    requires 0 in s
    ensures n < |s| && s[n] == 0
    ensures forall i :: 0 <= i < n ==> s[i] != 0
  {
    if s[0] == 0 then 0
    else
      assert 0 in s[1..] by {
        var k :| 0 <= k < |s| && s[k] == 0;
        assert s[1..][k - 1] == 0;
      }
      1 + StrLen(s[1..])
  }

  /** ByteSpan(reinterpret_cast<const uint8_t *>(str), strlen(str)): the bytes of a
      C string up to, not including, its terminating NUL. */
  function CStringSpan(s: seq<byte>): (r: seq<byte>)
    requires 0 in s
    ensures 0 !in r
    ensures |r| < |s| && r == s[..|r|] && s[|r|] == 0
  {
    s[..StrLen(s)]
  }

  /** IPv6 link-local unicast in the sense of section 2.5.6 of RFC 4291: the
      prefix fe80::/10 followed by 54 zero bits, that is fe80::/64. */
  predicate IsIPv6LinkLocal(a: IpAddress)
    ensures IsIPv6LinkLocal(a) <==>
      // the ten prefix bits 1111111010 ...
      a.octets[0] == 0xfe && 0x80 <= a.octets[1] < 0xc0 &&
      // ... followed by 54 zero bits
      a.octets[1] % 0x40 == 0 && forall k :: 2 <= k < 8 ==> a.octets[k] == 0
  {
    a.octets[0] == 0xfe && a.octets[1] == 0x80 &&
    a.octets[2] == 0 && a.octets[3] == 0 && a.octets[4] == 0 &&
    a.octets[5] == 0 && a.octets[6] == 0 && a.octets[7] == 0
  }

  /** The UDP peer address of a discovered node: its first address and port, and
      the advertised interface only when that address is IPv6 link-local. */
  function DiscoveredPeer(nd: CommissionNodeData): (r: PeerAddress)
    ensures r.Udp? && r.ip == nd.ipAddress && r.port == nd.port
    ensures r.iface == nd.interfaceId || r.iface == NullInterface
    ensures r.iface != NullInterface ==> IsIPv6LinkLocal(nd.ipAddress)
    ensures IsIPv6LinkLocal(nd.ipAddress) ==> r.iface == nd.interfaceId
  {
    var iface := if IsIPv6LinkLocal(nd.ipAddress) then nd.interfaceId else NullInterface;
    Udp(nd.ipAddress, nd.port, iface)
  }

  /** The ICD fields added to commissioning parameters when registration is
      requested: the configured strategy, a permanent client, and the
      commissioner as both check-in node and monitored subject. */
  function IcdRegistrationFields(strategy: IcdRegistrationStrategy, commissionerNodeId: NodeId,
                                 key: SymmetricKey): IcdParameters
  {
    IcdParameters(strategy, Permanent, commissionerNodeId, commissionerNodeId, key)
  }

  /** Commissioning parameters with nothing set. */
  const NoParameters: CommissioningParameters := CommissioningParameters(None, None, None)

  /** The identity reported to the commissioning result callbacks, as the code
      constructs it: `ScopedNodeId(fabric->GetFabricIndex(), peerId.GetNodeId())`
      passes the fabric index where the node id belongs and the 64-bit node id
      where the 8-bit fabric index belongs, which keeps only its low byte. */
  function CallbackIdentityAsWritten(fabric: FabricIndex, peer: PeerId): (r: ScopedNodeId)
    ensures r.nodeId == fabric as NodeId
    ensures r.fabricIndex == peer.nodeId % 0x100 && (peer.nodeId < 0x100 <==> r.fabricIndex == peer.nodeId)
  {
    ScopedNodeId(fabric, peer.nodeId % 0x100)
  }

  /** The identity the result callbacks are meant to receive: the peer's node id
      scoped to the fabric found for the peer's compressed fabric id. */
  function CallbackIdentity(fabric: FabricIndex, peer: PeerId): (r: ScopedNodeId)
    ensures r.nodeId == peer.nodeId && r.fabricIndex == fabric
  {
    ScopedNodeId(peer.nodeId, fabric)
  }

  /** The code as written reports the right identity only when the peer's node
      id happens to equal the fabric index. */
  lemma CallbackIdentityAsWrittenIsWrong(fabric: FabricIndex, peer: PeerId)
    ensures CallbackIdentityAsWritten(fabric, peer) == CallbackIdentity(fabric, peer) <==> peer.nodeId == fabric
  {
  }

  /** Node 0x1234 on fabric 1 is reported as node 1 on fabric 0x34. */
  lemma CallbackIdentityAsWrittenExample()
    ensures CallbackIdentityAsWritten(1, PeerId(0xabcd, 0x1234)) == ScopedNodeId(1, 0x34)
    ensures CallbackIdentity(1, PeerId(0xabcd, 0x1234)) == ScopedNodeId(0x1234, 1)
  {
  }
}
