/** Values exchanged between the pairing orchestrator, the commissioner it drives
    and the ICD client storage: identities, error codes, addresses and the
    parameter records handed to `PairDevice`. */
module MatterTypes {

  type uint8 = x: int | 0 <= x < 0x100
  type uint16 = x: int | 0 <= x < 0x1_0000
  type uint32 = x: int | 0 <= x < 0x1_0000_0000
  type uint64 = x: int | 0 <= x < 0x1_0000_0000_0000_0000
  type byte = uint8

  type NodeId = uint64
  type FabricIndex = uint8
  type CompressedFabricId = uint64

  /** A node id qualified by the local fabric index; the constructor order is (node, fabric). */
  datatype ScopedNodeId = ScopedNodeId(nodeId: NodeId, fabricIndex: FabricIndex)

  /** A peer as the commissioner reports it: compressed fabric id and node id. */
  datatype PeerId = PeerId(compressedFabricId: CompressedFabricId, nodeId: NodeId)

  /** A CHIP_ERROR code other than CHIP_NO_ERROR, whose code is 0. */
  type ErrorCode = c: uint32 | c != 0 witness 1

  /** CHIP_ERROR: success (code 0) or an error with a non-zero code. */
  datatype ChipError = NoError | Error(code: ErrorCode)

  /** The esp_err_t values the entry points return. */
  datatype EspErr = EspOk | EspFail | EspErrInvalidState

  datatype Option<T> = None | Some(value: T)

  /** AES-CCM-128 session key handed to the device and to the ICD store. */
  type SymmetricKey = s: seq<byte> | |s| == 16 witness seq(16, i => 0)

  /** Opaque pass-through values from the commissioning stack. */
  datatype IcdRegistrationStrategy = IcdRegistrationStrategy(code: uint8)
  datatype CommissioningStage = CommissioningStage(code: uint8)
  datatype AttestationVerificationResult = AttestationVerificationResult(code: uint16)

  /** ClientTypeEnum of the ICD Management cluster. */
  datatype IcdClientType = Permanent | Ephemeral

  /** An IP address as its 16 octets (IPv4 addresses are held IPv4-mapped). */
  type Octets16 = s: seq<byte> | |s| == 16 witness seq(16, i => 0)
  datatype IpAddress = IpAddress(octets: Octets16)

  datatype InterfaceId = NullInterface | Interface(id: uint32)

  datatype PeerAddress =
    | Ble
    | Udp(ip: IpAddress, port: uint16, iface: InterfaceId)

  datatype RendezvousParameters =
    RendezvousParameters(setupPinCode: uint32, discriminator: Option<uint16>, peer: PeerAddress)

  datatype WiFiCredentials = WiFiCredentials(ssid: seq<byte>, credentials: seq<byte>)

  /** The ICD fields of CommissioningParameters, set together or not at all. */
  datatype IcdParameters = IcdParameters(
    strategy: IcdRegistrationStrategy,
    clientType: IcdClientType,
    checkInNodeId: NodeId,
    monitoredSubject: NodeId,
    symmetricKey: SymmetricKey)

  datatype CommissioningParameters = CommissioningParameters(
    wifi: Option<WiFiCredentials>,
    threadDataset: Option<seq<byte>>,
    icd: Option<IcdParameters>)

  /** Which transports `PairDevice` with a setup payload may use to find the device. */
  datatype DiscoveryType = DiscoveryNetworkOnly | DiscoveryAll

  /** The fields of a DNS-SD commissionable-node record that the orchestrator reads;
      `ipAddress` is the record's first address. */
  datatype CommissionNodeData = CommissionNodeData(
    commissioningMode: uint8,
    port: uint16,
    ipAddress: IpAddress,
    interfaceId: InterfaceId)
}
