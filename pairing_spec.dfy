/** The pairing orchestrator as a state machine over values: the session state it
    keeps, the calls it makes on the commissioner, the ICD storage and the result
    callbacks (as events), and one transition function per entry point and per
    callback of `pairing_command`. The class in PairingOrchestrator is proved to
    follow these functions step for step. */
module PairingSpec {
  import opened MatterTypes
  import opened IcdClientStorage
  import opened CommissioningParams

  /** Which of the three upstream result callbacks are installed. */
  datatype Hooks = Hooks(pase: bool, commissioningSuccess: bool, commissioningFailure: bool)

  /** What stays fixed while the orchestrator runs: the commissioner's own node id
      and fabric index, the ICD registration settings and the installed hooks. */
  datatype Config = Config(
    commissionerNodeId: NodeId,
    controllerFabricIndex: FabricIndex,
    icdRegistration: bool,
    icdStrategy: IcdRegistrationStrategy,
    icdSymmetricKey: SymmetricKey,
    hooks: Hooks)

  /** The state the orchestrator reads and writes: the commissioner's two
      delegate slots (set = this orchestrator is registered), the stored PIN and
      node id, the ICD flag, and the ICD client storage. */
  datatype Session = Session(
    pairingDelegateSet: bool,
    discoveryDelegateSet: bool,
    setupPinCode: uint32,
    remoteNodeId: NodeId,
    deviceIsIcd: bool,
    storage: Store,
    config: Config)

  /** A call the orchestrator makes on one of its collaborators. */
  datatype Event =
    | RegisterDiscoveryDelegate(registered: bool)
    | RegisterPairingDelegate(registered: bool)
    | DiscoverCommissionableNodes
    | PairDevice(nodeId: NodeId, rendezvous: RendezvousParameters, params: CommissioningParameters)
    | PairDeviceWithCode(nodeId: NodeId, payload: string, params: CommissioningParameters,
                         discovery: DiscoveryType)
    | PaseCallback(err: ChipError)
    | CommissioningSuccessCallback(id: ScopedNodeId)
    | CommissioningFailureCallback(id: ScopedNodeId, err: ChipError, stage: CommissioningStage,
                                   detail: Option<AttestationVerificationResult>)
    | IcdSetKey(info: ClientInfo)
    | IcdStoreEntry(info: ClientInfo)
    | IcdRemoveKey(info: ClientInfo)
    | IcdDeleteEntry(id: ScopedNodeId)

  /** The effect of one entry point or callback: the new state, the calls made in
      order, and the returned esp_err_t (None for the callbacks, which return void). */
  datatype Outcome = Outcome(session: Session, events: seq<Event>, status: Option<EspErr>)

  /** The answer every entry point gives while a pairing delegate is registered. */
  function Rejected(s: Session): Outcome {
    Outcome(s, [], Some(EspErrInvalidState))
  }

  /** The ICD fields the configuration asks for, if it asks for any. */
  function RequestedIcd(cfg: Config): Option<IcdParameters> {
    if cfg.icdRegistration then
      Some(IcdRegistrationFields(cfg.icdStrategy, cfg.commissionerNodeId, cfg.icdSymmetricKey))
    else None
  }

  /** The augmentation shared by every ICD-capable path: when registration is
      requested, reset the ICD flag and add the ICD fields; otherwise leave both. */
  function AddIcdRegistration(s: Session, params: CommissioningParameters): (r: (Session, CommissioningParameters))
    ensures r.1.wifi == params.wifi && r.1.threadDataset == params.threadDataset
    ensures r.1.icd == (if s.config.icdRegistration then RequestedIcd(s.config) else params.icd)
    ensures r.0 == s.(deviceIsIcd := if s.config.icdRegistration then false else s.deviceIsIcd)
  {
    if s.config.icdRegistration then
      (s.(deviceIsIcd := false), params.(icd := RequestedIcd(s.config)))
    else
      (s, params)
  }

  // ---------------------------------------------------------------- entry points

  /** pairing_on_network: take both delegate slots, remember PIN and node id, and
      start DNS-SD discovery; the pairing itself starts in OnDiscoveredDevice. */
  function PairingOnNetwork(s: Session, nodeId: NodeId, pinCode: uint32, discoveryStarted: bool): (r: Outcome)
    ensures s.pairingDelegateSet ==> r == Rejected(s)
    ensures !s.pairingDelegateSet ==>
      r.session == s.(pairingDelegateSet := true, discoveryDelegateSet := true,
                      setupPinCode := pinCode, remoteNodeId := nodeId) &&
      r.events == [RegisterDiscoveryDelegate(true), RegisterPairingDelegate(true), DiscoverCommissionableNodes] &&
      r.status == Some(if discoveryStarted then EspOk else EspFail)
  {
    if s.pairingDelegateSet then Rejected(s)
    else
      var s1 := s.(discoveryDelegateSet := true, pairingDelegateSet := true,
                   setupPinCode := pinCode, remoteNodeId := nodeId);
      var events := [RegisterDiscoveryDelegate(true), RegisterPairingDelegate(true), DiscoverCommissionableNodes];
      Outcome(s1, events, Some(if discoveryStarted then EspOk else EspFail))
  }

  /** pairing_ble_wifi: pair over BLE with the given discriminator, provisioning
      Wi-Fi credentials; no ICD fields are ever added on this path. */
  function PairingBleWifi(s: Session, nodeId: NodeId, pinCode: uint32, discriminator: uint16,
                          ssid: seq<byte>, password: seq<byte>): (r: Outcome)
    requires 0 in ssid && 0 in password
    ensures s.pairingDelegateSet ==> r == Rejected(s)
    ensures !s.pairingDelegateSet ==>
      r.session == s.(pairingDelegateSet := true) && r.status == Some(EspOk) &&
      r.events == [RegisterPairingDelegate(true),
                   PairDevice(nodeId, RendezvousParameters(pinCode, Some(discriminator), Ble),
                              CommissioningParameters(Some(WiFiCredentials(CStringSpan(ssid), CStringSpan(password))),
                                                      None, None))]
  {
    if s.pairingDelegateSet then Rejected(s)
    else
      var rendezvous := RendezvousParameters(pinCode, Some(discriminator), Ble);
      var wifi := WiFiCredentials(CStringSpan(ssid), CStringSpan(password));
      var params := NoParameters.(wifi := Some(wifi));
      Outcome(s.(pairingDelegateSet := true),
              [RegisterPairingDelegate(true), PairDevice(nodeId, rendezvous, params)], Some(EspOk))
  }

  /** pairing_ble_thread: pair over BLE, provisioning the first `datasetLen` bytes
      of the Thread operational dataset, with the ICD augmentation. */
  function PairingBleThread(s: Session, nodeId: NodeId, pinCode: uint32, discriminator: uint16,
                            datasetTlvs: seq<byte>, datasetLen: uint8): (r: Outcome)
    requires datasetLen <= |datasetTlvs|
    ensures s.pairingDelegateSet ==> r == Rejected(s)
    ensures !s.pairingDelegateSet ==>
      r.session == s.(pairingDelegateSet := true, deviceIsIcd := s.deviceIsIcd && !s.config.icdRegistration) &&
      r.status == Some(EspOk) &&
      r.events == [RegisterPairingDelegate(true),
                   PairDevice(nodeId, RendezvousParameters(pinCode, Some(discriminator), Ble),
                              CommissioningParameters(None, Some(datasetTlvs[..datasetLen]), RequestedIcd(s.config)))]
  {
    if s.pairingDelegateSet then Rejected(s)
    else
      var rendezvous := RendezvousParameters(pinCode, Some(discriminator), Ble);
      var s1 := s.(pairingDelegateSet := true);
      var (s2, params) := AddIcdRegistration(s1, NoParameters.(threadDataset := Some(datasetTlvs[..datasetLen])));
      Outcome(s2, [RegisterPairingDelegate(true), PairDevice(nodeId, rendezvous, params)], Some(EspOk))
  }

  /** pairing_code: pair from an onboarding payload, finding the device on the
      network only, with the ICD augmentation. */
  function PairingCode(s: Session, nodeId: NodeId, payload: string): (r: Outcome)
    ensures s.pairingDelegateSet ==> r == Rejected(s)
    ensures !s.pairingDelegateSet ==>
      r.session == s.(pairingDelegateSet := true, deviceIsIcd := s.deviceIsIcd && !s.config.icdRegistration) &&
      r.status == Some(EspOk) &&
      r.events == [RegisterPairingDelegate(true),
                   PairDeviceWithCode(nodeId, payload, CommissioningParameters(None, None, RequestedIcd(s.config)),
                                      DiscoveryNetworkOnly)]
  {
    if s.pairingDelegateSet then Rejected(s)
    else
      var (s1, params) := AddIcdRegistration(s, NoParameters);
      Outcome(s1.(pairingDelegateSet := true),
              [RegisterPairingDelegate(true), PairDeviceWithCode(nodeId, payload, params, DiscoveryNetworkOnly)],
              Some(EspOk))
  }

  /** pairing_code_thread: pair from a payload over any transport, provisioning a
      Thread dataset, with the ICD augmentation. */
  function PairingCodeThread(s: Session, nodeId: NodeId, payload: string,
                             datasetBuf: seq<byte>, datasetLen: uint8): (r: Outcome)
    requires datasetLen <= |datasetBuf|
    ensures s.pairingDelegateSet ==> r == Rejected(s)
    ensures !s.pairingDelegateSet ==>
      r.session == s.(pairingDelegateSet := true, deviceIsIcd := s.deviceIsIcd && !s.config.icdRegistration) &&
      r.status == Some(EspOk) &&
      r.events == [RegisterPairingDelegate(true),
                   PairDeviceWithCode(nodeId, payload,
                                      CommissioningParameters(None, Some(datasetBuf[..datasetLen]), RequestedIcd(s.config)),
                                      DiscoveryAll)]
  {
    if s.pairingDelegateSet then Rejected(s)
    else
      var (s1, params) := AddIcdRegistration(s, NoParameters.(threadDataset := Some(datasetBuf[..datasetLen])));
      Outcome(s1.(pairingDelegateSet := true),
              [RegisterPairingDelegate(true), PairDeviceWithCode(nodeId, payload, params, DiscoveryAll)],
              Some(EspOk))
  }

  /** pairing_code_wifi: pair from a payload over any transport, provisioning
      Wi-Fi credentials; no ICD fields are ever added on this path. */
  function PairingCodeWifi(s: Session, nodeId: NodeId, ssid: seq<byte>, password: seq<byte>,
                           payload: string): (r: Outcome)
    requires 0 in ssid && 0 in password
    ensures s.pairingDelegateSet ==> r == Rejected(s)
    ensures !s.pairingDelegateSet ==>
      r.session == s.(pairingDelegateSet := true) && r.status == Some(EspOk) &&
      r.events == [RegisterPairingDelegate(true),
                   PairDeviceWithCode(nodeId, payload,
                                      CommissioningParameters(Some(WiFiCredentials(CStringSpan(ssid), CStringSpan(password))),
                                                              None, None),
                                      DiscoveryAll)]
  {
    if s.pairingDelegateSet then Rejected(s)
    else
      var wifi := WiFiCredentials(CStringSpan(ssid), CStringSpan(password));
      var params := NoParameters.(wifi := Some(wifi));
      Outcome(s.(pairingDelegateSet := true),
              [RegisterPairingDelegate(true), PairDeviceWithCode(nodeId, payload, params, DiscoveryAll)],
              Some(EspOk))
  }

  /** pairing_code_wifi_thread: pair from a payload over any transport,
      provisioning both Wi-Fi credentials and a Thread dataset, with the ICD
      augmentation. */
  function PairingCodeWifiThread(s: Session, nodeId: NodeId, ssid: seq<byte>, password: seq<byte>,
                                 payload: string, datasetBuf: seq<byte>, datasetLen: uint8): (r: Outcome)
    requires 0 in ssid && 0 in password && datasetLen <= |datasetBuf|
    ensures s.pairingDelegateSet ==> r == Rejected(s)
    ensures !s.pairingDelegateSet ==>
      r.session == s.(pairingDelegateSet := true, deviceIsIcd := s.deviceIsIcd && !s.config.icdRegistration) &&
      r.status == Some(EspOk) &&
      r.events == [RegisterPairingDelegate(true),
                   PairDeviceWithCode(nodeId, payload,
                                      CommissioningParameters(Some(WiFiCredentials(CStringSpan(ssid), CStringSpan(password))),
                                                              Some(datasetBuf[..datasetLen]), RequestedIcd(s.config)),
                                      DiscoveryAll)]
  {
    if s.pairingDelegateSet then Rejected(s)
    else
      var wifi := WiFiCredentials(CStringSpan(ssid), CStringSpan(password));
      var base := NoParameters.(wifi := Some(wifi), threadDataset := Some(datasetBuf[..datasetLen]));
      var (s1, params) := AddIcdRegistration(s, base);
      Outcome(s1.(pairingDelegateSet := true),
              [RegisterPairingDelegate(true), PairDeviceWithCode(nodeId, payload, params, DiscoveryAll)],
              Some(EspOk))
  }

  // ------------------------------------------------------------------- callbacks

  /** OnDiscoveredDevice: skip a node whose commissioning window is closed;
      otherwise stop discovery and pair the node with the stored PIN and node id. */
  function OnDiscoveredDevice(s: Session, nodeData: CommissionNodeData): (r: Outcome)
    ensures r.status == None
    ensures nodeData.commissioningMode == 0 <==> r.events == []
    ensures r.session.pairingDelegateSet == s.pairingDelegateSet && r.session.storage == s.storage
  {
    if nodeData.commissioningMode == 0 then Outcome(s, [], None)
    else
      var s1 := s.(discoveryDelegateSet := false);
      var rendezvous := RendezvousParameters(s.setupPinCode, None, DiscoveredPeer(nodeData));
      var (s2, params) := AddIcdRegistration(s1, NoParameters);
      Outcome(s2, [RegisterDiscoveryDelegate(false), PairDevice(s.remoteNodeId, rendezvous, params)], None)
  }

  /** OnPairingComplete: a PASE failure releases the pairing delegate; the PASE
      hook, if installed, is told the result either way. */
  function OnPairingComplete(s: Session, err: ChipError): (r: Outcome)
    ensures r.status == None
    ensures r.session.pairingDelegateSet == (s.pairingDelegateSet && err == NoError)
    ensures s.config.hooks.pase <==> PaseCallback(err) in r.events
  {
    var s1 := if err != NoError then s.(pairingDelegateSet := false) else s;
    var released := if err != NoError then [RegisterPairingDelegate(false)] else [];
    var notified := if s.config.hooks.pase then [PaseCallback(err)] else [];
    Outcome(s1, released + notified, None)
  }

  /** OnCommissioningSuccess: release the pairing delegate, then report the peer
      scoped to the fabric found for its compressed fabric id. */
  function OnCommissioningSuccess(s: Session, peer: PeerId, fabric: Option<FabricIndex>): (r: Outcome)
    requires s.config.hooks.commissioningSuccess ==> fabric.Some?
    ensures r.status == None
    ensures r.session == s.(pairingDelegateSet := false)
    ensures |r.events| > 0 && r.events[0] == RegisterPairingDelegate(false)
  {
    var notified :=
      if s.config.hooks.commissioningSuccess then [CommissioningSuccessCallback(CallbackIdentity(fabric.value, peer))]
      else [];
    Outcome(s.(pairingDelegateSet := false), [RegisterPairingDelegate(false)] + notified, None)
  }

  /** The ICD record OnCommissioningFailure deletes: the peer's node id on the
      controller's own fabric. */
  function FailedIcdRecord(s: Session, peer: PeerId): (r: ScopedNodeId)
    ensures r.nodeId == peer.nodeId && r.fabricIndex == s.config.controllerFabricIndex
  {
    ScopedNodeId(peer.nodeId, s.config.controllerFabricIndex)
  }

  /** OnCommissioningFailure: release the pairing delegate, report the failure,
      and, if this session registered the device as an ICD, delete its record. */
  function OnCommissioningFailure(s: Session, peer: PeerId, err: ChipError, stage: CommissioningStage,
                                  detail: Option<AttestationVerificationResult>,
                                  fabric: Option<FabricIndex>): (r: Outcome)
    requires s.config.hooks.commissioningFailure ==> fabric.Some?
    ensures r.status == None
    ensures r.session == s.(pairingDelegateSet := false, storage := r.session.storage)
    ensures |r.events| > 0 && r.events[0] == RegisterPairingDelegate(false)
    ensures Valid(s.storage) ==> Valid(r.session.storage)
  {
    var notified :=
      if s.config.hooks.commissioningFailure then
        [CommissioningFailureCallback(CallbackIdentity(fabric.value, peer), err, stage, detail)]
      else [];
    var id := FailedIcdRecord(s, peer);
    var cleanup := if s.deviceIsIcd then [IcdDeleteEntry(id)] else [];
    var storage := if s.deviceIsIcd then DeleteEntry(s.storage, id) else s.storage;
    Outcome(s.(pairingDelegateSet := false, storage := storage),
            [RegisterPairingDelegate(false)] + notified + cleanup, None)
  }

  /** The client record OnICDRegistrationComplete builds, before it has a key. */
  function RegistrationInfo(cfg: Config, nodeId: ScopedNodeId, icdCounter: uint32): (r: ClientInfo)
    ensures r.peerNode == nodeId && r.startIcdCounter == icdCounter && r.keyHandle == None
    ensures r.checkInNode.nodeId == cfg.commissionerNodeId && r.checkInNode.fabricIndex == nodeId.fabricIndex
    ensures r.monitoredSubject == cfg.commissionerNodeId
  {
    ClientInfo(ScopedNodeId(cfg.commissionerNodeId, nodeId.fabricIndex), nodeId,
               cfg.commissionerNodeId, icdCounter, None)
  }

  /** OnICDRegistrationComplete: set the key, then store the record; if either
      fails, remove the key and leave the ICD flag alone; if both succeed, mark
      the device as an ICD. */
  function OnIcdRegistrationComplete(s: Session, nodeId: ScopedNodeId, icdCounter: uint32,
                                     setKeyOk: bool, storeOk: bool): (r: Outcome)
    ensures r.status == None
    ensures Valid(s.storage) ==> Valid(r.session.storage)
  {
    var info := RegistrationInfo(s.config, nodeId, icdCounter);
    var (st1, keyed) := SetKey(s.storage, info, s.config.icdSymmetricKey, setKeyOk);
    var st2 := if setKeyOk then StoreEntry(st1, keyed, storeOk) else st1;
    var attempted := [IcdSetKey(info)] + (if setKeyOk then [IcdStoreEntry(keyed)] else []);
    if setKeyOk && storeOk then
      Outcome(s.(storage := st2, deviceIsIcd := true), attempted, None)
    else
      Outcome(s.(storage := RemoveKey(st2, keyed)), attempted + [IcdRemoveKey(keyed)], None)
  }

  // ------------------------------------------------------------------- sequences

  /** One call into the orchestrator, with the outcomes of the collaborators it
      consults (discovery start, SetKey, StoreEntry, fabric lookup) attached. */
  datatype Input =
    | PairOnNetwork(nodeId: NodeId, pinCode: uint32, discoveryStarted: bool)
    | PairBleWifi(nodeId: NodeId, pinCode: uint32, discriminator: uint16, ssid: seq<byte>, password: seq<byte>)
    | PairBleThread(nodeId: NodeId, pinCode: uint32, discriminator: uint16, dataset: seq<byte>, datasetLen: uint8)
    | PairCode(nodeId: NodeId, payload: string)
    | PairCodeThread(nodeId: NodeId, payload: string, dataset: seq<byte>, datasetLen: uint8)
    | PairCodeWifi(nodeId: NodeId, ssid: seq<byte>, password: seq<byte>, payload: string)
    | PairCodeWifiThread(nodeId: NodeId, ssid: seq<byte>, password: seq<byte>, payload: string,
                         dataset: seq<byte>, datasetLen: uint8)
    | DiscoveredDevice(nodeData: CommissionNodeData)
    | PairingComplete(err: ChipError)
    | CommissioningSuccess(peer: PeerId, fabric: Option<FabricIndex>)
    | CommissioningFailure(peer: PeerId, err: ChipError, stage: CommissioningStage,
                           detail: Option<AttestationVerificationResult>, fabric: Option<FabricIndex>)
    | IcdRegistrationComplete(icdNode: ScopedNodeId, icdCounter: uint32, setKeyOk: bool, storeOk: bool)
  {
    /** One of the seven pairing entry points. */
    predicate IsEntryPoint() {
      PairOnNetwork? || PairBleWifi? || PairBleThread? || PairCode? ||
      PairCodeThread? || PairCodeWifi? || PairCodeWifiThread?
    }

    /** A callback that ends a session: PASE failure, commissioning success or failure. */
    predicate IsTerminal() {
      (PairingComplete? && err != NoError) || CommissioningSuccess? || CommissioningFailure?
    }
  }

  /** What the code needs of its callers: NUL-terminated strings, a dataset length
      within its buffer, and a fabric for the peer whenever a result hook will
      dereference the lookup. */
  predicate WellFormed(cfg: Config, i: Input) {
    match i
    case PairBleWifi(_, _, _, ssid, password) => 0 in ssid && 0 in password
    case PairBleThread(_, _, _, dataset, len) => len <= |dataset|
    case PairCodeThread(_, _, dataset, len) => len <= |dataset|
    case PairCodeWifi(_, ssid, password, _) => 0 in ssid && 0 in password
    case PairCodeWifiThread(_, ssid, password, _, dataset, len) =>
      0 in ssid && 0 in password && len <= |dataset|
    case CommissioningSuccess(_, fabric) => cfg.hooks.commissioningSuccess ==> fabric.Some?
    case CommissioningFailure(_, _, _, _, fabric) => cfg.hooks.commissioningFailure ==> fabric.Some?
    case _ => true
  }

  /** Dispatch one input to its transition. */
  function Step(s: Session, i: Input): (r: Outcome)
    requires WellFormed(s.config, i)
    ensures r.session.config == s.config
    ensures i.IsEntryPoint() <==> r.status.Some?
  {
    match i
    case PairOnNetwork(n, pin, ok) => PairingOnNetwork(s, n, pin, ok)
    case PairBleWifi(n, pin, d, ssid, pwd) => PairingBleWifi(s, n, pin, d, ssid, pwd)
    case PairBleThread(n, pin, d, ds, len) => PairingBleThread(s, n, pin, d, ds, len)
    case PairCode(n, payload) => PairingCode(s, n, payload)
    case PairCodeThread(n, payload, ds, len) => PairingCodeThread(s, n, payload, ds, len)
    case PairCodeWifi(n, ssid, pwd, payload) => PairingCodeWifi(s, n, ssid, pwd, payload)
    case PairCodeWifiThread(n, ssid, pwd, payload, ds, len) => PairingCodeWifiThread(s, n, ssid, pwd, payload, ds, len)
    case DiscoveredDevice(nd) => OnDiscoveredDevice(s, nd)
    case PairingComplete(err) => OnPairingComplete(s, err)
    case CommissioningSuccess(peer, fabric) => OnCommissioningSuccess(s, peer, fabric)
    case CommissioningFailure(peer, err, stage, detail, fabric) =>
      OnCommissioningFailure(s, peer, err, stage, detail, fabric)
    case IcdRegistrationComplete(node, counter, keyOk, storeOk) =>
      OnIcdRegistrationComplete(s, node, counter, keyOk, storeOk)
  }

  /** The state reached, the calls made and the statuses returned by a sequence
      of inputs delivered one after another. */
  datatype Trajectory = Trajectory(final: Session, events: seq<Event>, statuses: seq<Option<EspErr>>)

  function Run(s: Session, inputs: seq<Input>): (t: Trajectory)
    requires forall k :: 0 <= k < |inputs| ==> WellFormed(s.config, inputs[k])
    ensures t.final.config == s.config
    ensures |t.statuses| == |inputs|
    ensures forall k :: 0 <= k < |inputs| ==> (t.statuses[k].Some? <==> inputs[k].IsEntryPoint())
    decreases |inputs|
  {
    if inputs == [] then Trajectory(s, [], [])
    else
      var o := Step(s, inputs[0]);
      var rest := Run(o.session, inputs[1..]);
      Trajectory(rest.final, o.events + rest.events, [o.status] + rest.statuses)
  }
}
