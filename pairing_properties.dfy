/** What the pairing orchestrator guarantees, stated over the transitions of
    PairingSpec: single-flight admission, release of the pairing delegate before
    any result callback, the discovery filter, the shared ICD augmentation, the
    transactional ICD registration and its undo on commissioning failure. */
module PairingProperties {
  import opened MatterTypes
  import opened IcdClientStorage
  import opened CommissioningParams
  import opened PairingSpec

  /** The event is a call into one of the upstream result hooks. */
  predicate IsResultCallback(e: Event) {
    e.PaseCallback? || e.CommissioningSuccessCallback? || e.CommissioningFailureCallback?
  }

  function CountResultCallbacks(events: seq<Event>): (n: nat)
    ensures n <= |events|
    ensures n == 0 <==> forall k :: 0 <= k < |events| ==> !IsResultCallback(events[k])
  {
    if events == [] then 0
    else (if IsResultCallback(events[0]) then 1 else 0) + CountResultCallbacks(events[1..])
  }

  /** Whether the terminal callback has a hook installed to report it. */
  predicate HookInstalled(cfg: Config, i: Input) {
    match i
    case PairingComplete(_) => cfg.hooks.pase
    case CommissioningSuccess(_, _) => cfg.hooks.commissioningSuccess
    case CommissioningFailure(_, _, _, _, _) => cfg.hooks.commissioningFailure
    case _ => false
  }

  // ------------------------------------------------------------------ admission

  /** Every entry point refuses with ESP_ERR_INVALID_STATE while a pairing
      delegate is registered, and then changes nothing and calls nothing. */
  lemma BusyEntryPointChangesNothing(s: Session, i: Input)
    requires WellFormed(s.config, i) && i.IsEntryPoint()
    ensures Step(s, i).status == Some(EspErrInvalidState) <==> s.pairingDelegateSet
    ensures s.pairingDelegateSet ==> Step(s, i).session == s && Step(s, i).events == []
    ensures !s.pairingDelegateSet ==> Step(s, i).session.pairingDelegateSet
  {
  }

  /** While a session is in flight (its pairing delegate registered) and no
      terminal callback has arrived, every entry point is refused and the stored
      PIN and node id stay as they were. */
  lemma {:induction false} InFlightSessionExcludesOthers(s: Session, inputs: seq<Input>)
    requires s.pairingDelegateSet
    requires forall k :: 0 <= k < |inputs| ==> WellFormed(s.config, inputs[k])
    requires forall k :: 0 <= k < |inputs| ==> !inputs[k].IsTerminal()
    ensures Run(s, inputs).final.pairingDelegateSet
    ensures Run(s, inputs).final.setupPinCode == s.setupPinCode
    ensures Run(s, inputs).final.remoteNodeId == s.remoteNodeId
    ensures forall k :: 0 <= k < |inputs| && inputs[k].IsEntryPoint() ==>
              Run(s, inputs).statuses[k] == Some(EspErrInvalidState)
    decreases |inputs|
  {
    if inputs != [] {
      var o := Step(s, inputs[0]);
      assert o.session.pairingDelegateSet && o.session.setupPinCode == s.setupPinCode &&
             o.session.remoteNodeId == s.remoteNodeId by {
        BusyEntryPointStaysBusy(s, inputs[0]);
      }
      InFlightSessionExcludesOthers(o.session, inputs[1..]);
      var t := Run(s, inputs);
      forall k | 0 <= k < |inputs| && inputs[k].IsEntryPoint()
        ensures t.statuses[k] == Some(EspErrInvalidState)
      {
        if k == 0 {
          BusyEntryPointChangesNothing(s, inputs[0]);
        } else {
          assert inputs[1..][k - 1] == inputs[k];
        }
      }
    }
  }

  /** One non-terminal step from a busy state keeps it busy with the same PIN and node id. */
  lemma BusyEntryPointStaysBusy(s: Session, i: Input)
    requires s.pairingDelegateSet && WellFormed(s.config, i) && !i.IsTerminal()
    ensures Step(s, i).session.pairingDelegateSet
    ensures Step(s, i).session.setupPinCode == s.setupPinCode
    ensures Step(s, i).session.remoteNodeId == s.remoteNodeId
  {
  }

  /** pairing_on_network registers both delegates and stores the PIN and node id
      before it tries discovery; when discovery cannot start it returns ESP_FAIL
      with both delegates still registered, so until a terminal callback arrives
      every later entry point is refused. */
  lemma DiscoveryStartFailureKeepsDelegates(s: Session, nodeId: NodeId, pinCode: uint32, later: seq<Input>)
    requires !s.pairingDelegateSet
    requires forall k :: 0 <= k < |later| ==> WellFormed(s.config, later[k]) && !later[k].IsTerminal()
    ensures var o := PairingOnNetwork(s, nodeId, pinCode, false);
      o.status == Some(EspFail) &&
      o.session.pairingDelegateSet && o.session.discoveryDelegateSet &&
      o.session.setupPinCode == pinCode && o.session.remoteNodeId == nodeId &&
      forall k :: 0 <= k < |later| && later[k].IsEntryPoint() ==>
        Run(o.session, later).statuses[k] == Some(EspErrInvalidState)
  {
    var o := PairingOnNetwork(s, nodeId, pinCode, false);
    InFlightSessionExcludesOthers(o.session, later);
  }

  // ------------------------------------------------------------------- discovery

  /** OnDiscoveredDevice ignores a node whose commissioning window is closed:
      nothing changes, the discovery delegate stays registered, no pairing starts. */
  lemma ClosedWindowNodeIgnored(s: Session, nd: CommissionNodeData)
    requires nd.commissioningMode == 0
    ensures OnDiscoveredDevice(s, nd) == Outcome(s, [], None)
  {
  }

  /** For a node with an open window, OnDiscoveredDevice unregisters the discovery
      delegate and issues exactly one PairDevice with the stored node id and PIN,
      to the node's first address and port, on the advertised interface only when
      that address is IPv6 link-local; nothing else changes but the ICD flag. */
  lemma OpenWindowNodePaired(s: Session, nd: CommissionNodeData)
    requires nd.commissioningMode != 0
    ensures var o := OnDiscoveredDevice(s, nd);
      !o.session.discoveryDelegateSet &&
      o.session == s.(discoveryDelegateSet := false, deviceIsIcd := o.session.deviceIsIcd) &&
      |o.events| == 2 && o.events[0] == RegisterDiscoveryDelegate(false) &&
      o.events[1].PairDevice? &&
      o.events[1].nodeId == s.remoteNodeId &&
      o.events[1].rendezvous.setupPinCode == s.setupPinCode &&
      o.events[1].rendezvous.discriminator == None &&
      o.events[1].rendezvous.peer == Udp(nd.ipAddress, nd.port,
                                         if IsIPv6LinkLocal(nd.ipAddress) then nd.interfaceId else NullInterface)
  {
  }

  // --------------------------------------------------------------- ICD augmentation

  /** The paths that add ICD fields when registration is requested. */
  predicate AddsIcd(i: Input) {
    i.PairBleThread? || i.PairCode? || i.PairCodeThread? || i.PairCodeWifiThread? || i.DiscoveredDevice?
  }

  /** Wherever a pairing starts, the commissioning parameters carry the requested
      ICD fields (configured strategy, permanent client, the commissioner as
      check-in node and monitored subject, the session key) on the ICD-capable
      paths and none on the Wi-Fi-only ones; the ICD flag is reset exactly when
      ICD fields are added. */
  lemma IcdAugmentationUniform(s: Session, i: Input)
    requires WellFormed(s.config, i)
    requires (i.IsEntryPoint() && !i.PairOnNetwork? && !s.pairingDelegateSet) ||
             (i.DiscoveredDevice? && i.nodeData.commissioningMode != 0)
    ensures var o := Step(s, i);
      |o.events| == 2 && (o.events[1].PairDevice? || o.events[1].PairDeviceWithCode?) &&
      o.events[1].params.icd == (if AddsIcd(i) then RequestedIcd(s.config) else None) &&
      o.session.deviceIsIcd == (if AddsIcd(i) && s.config.icdRegistration then false else s.deviceIsIcd)
  {
  }

  /** The entry points that pair from an onboarding payload. */
  predicate FromPayload(i: Input) {
    i.PairCode? || i.PairCodeThread? || i.PairCodeWifi? || i.PairCodeWifiThread?
  }

  /** The entry points that provision Wi-Fi credentials. */
  predicate CarriesWifi(i: Input) {
    i.PairBleWifi? || i.PairCodeWifi? || i.PairCodeWifiThread?
  }

  /** The entry points that provision a Thread dataset. */
  predicate CarriesThread(i: Input) {
    i.PairBleThread? || i.PairCodeThread? || i.PairCodeWifiThread?
  }

  /** An admitted entry point other than pairing_on_network registers the
      pairing delegate and starts exactly one pairing of the node the caller
      named: over BLE with the caller's PIN and discriminator, or from the
      caller's payload; carrying the caller's Wi-Fi credentials (without their
      NUL) and Thread dataset prefix exactly on the paths that take them. Apart
      from the delegate and the ICD flag, the session is unchanged: PIN, node
      id, discovery slot and ICD storage stay as they were. */
  lemma AdmittedEntryPointPairsRequestedNode(s: Session, i: Input)
    requires WellFormed(s.config, i) && i.IsEntryPoint() && !i.PairOnNetwork? && !s.pairingDelegateSet
    ensures var o := Step(s, i);
      o.status == Some(EspOk) &&
      o.session == s.(pairingDelegateSet := true, deviceIsIcd := o.session.deviceIsIcd) &&
      |o.events| == 2 && o.events[0] == RegisterPairingDelegate(true) &&
      (o.events[1].PairDevice? || o.events[1].PairDeviceWithCode?) &&
      o.events[1].nodeId == i.nodeId &&
      (FromPayload(i) <==> o.events[1].PairDeviceWithCode?) &&
      (FromPayload(i) ==> o.events[1].payload == i.payload) &&
      (!FromPayload(i) ==> o.events[1].rendezvous == RendezvousParameters(i.pinCode, Some(i.discriminator), Ble)) &&
      o.events[1].params.wifi ==
        (if CarriesWifi(i) then Some(WiFiCredentials(CStringSpan(i.ssid), CStringSpan(i.password))) else None) &&
      o.events[1].params.threadDataset == (if CarriesThread(i) then Some(i.dataset[..i.datasetLen]) else None)
  {
  }

  /** The requested ICD fields, spelled out. */
  lemma RequestedIcdFields(cfg: Config)
    ensures RequestedIcd(cfg).Some? <==> cfg.icdRegistration
    ensures cfg.icdRegistration ==>
      RequestedIcd(cfg).value.strategy == cfg.icdStrategy &&
      RequestedIcd(cfg).value.clientType == Permanent &&
      RequestedIcd(cfg).value.checkInNodeId == cfg.commissionerNodeId &&
      RequestedIcd(cfg).value.monitoredSubject == cfg.commissionerNodeId &&
      RequestedIcd(cfg).value.symmetricKey == cfg.icdSymmetricKey
  {
  }

  /** Credentials handed to PairDevice are the C strings without their NUL, and
      the Thread dataset is the first `datasetLen` bytes of its buffer. */
  lemma CredentialsAreCStringContents(s: Session, nodeId: NodeId, ssid: seq<byte>, password: seq<byte>,
                                      payload: string, dataset: seq<byte>, datasetLen: uint8)
    requires 0 in ssid && 0 in password && datasetLen <= |dataset| && !s.pairingDelegateSet
    ensures var o := PairingCodeWifiThread(s, nodeId, ssid, password, payload, dataset, datasetLen);
      var p := o.events[1].params;
      p.wifi.Some? && 0 !in p.wifi.value.ssid && p.wifi.value.ssid + [0] <= ssid &&
      0 !in p.wifi.value.credentials && p.wifi.value.credentials + [0] <= password &&
      p.threadDataset == Some(dataset[..datasetLen])
  {
  }

  // ------------------------------------------------------------ session endings

  /** OnPairingComplete releases the pairing delegate only on a PASE error, and
      hands the PASE hook the result unchanged, after the release. */
  lemma PaseResultReported(s: Session, err: ChipError)
    ensures var o := OnPairingComplete(s, err);
      o.session == s.(pairingDelegateSet := s.pairingDelegateSet && err == NoError) &&
      (err != NoError <==> RegisterPairingDelegate(false) in o.events) &&
      (s.config.hooks.pase <==> |o.events| > 0 && o.events[|o.events| - 1] == PaseCallback(err)) &&
      CountResultCallbacks(o.events) == (if s.config.hooks.pase then 1 else 0)
  {
  }

  /** Every callback that ends a session leaves the pairing delegate unregistered,
      makes the release its first call, and reports through the matching hook
      exactly once if it is installed and never otherwise. */
  lemma TerminalCallbacksReleaseBeforeNotify(s: Session, i: Input)
    requires WellFormed(s.config, i) && i.IsTerminal()
    ensures var o := Step(s, i);
      !o.session.pairingDelegateSet &&
      |o.events| > 0 && o.events[0] == RegisterPairingDelegate(false) &&
      !IsResultCallback(o.events[0]) &&
      CountResultCallbacks(o.events) == (if HookInstalled(s.config, i) then 1 else 0)
  {
  }

  /** The result hooks receive the peer's own node id, scoped to the fabric found
      for its compressed fabric id, together with the failure details unchanged. */
  lemma CommissioningResultIdentity(s: Session, peer: PeerId, fabric: FabricIndex, err: ChipError,
                                    stage: CommissioningStage, detail: Option<AttestationVerificationResult>)
    ensures s.config.hooks.commissioningSuccess ==>
      OnCommissioningSuccess(s, peer, Some(fabric)).events ==
        [RegisterPairingDelegate(false), CommissioningSuccessCallback(ScopedNodeId(peer.nodeId, fabric))]
    ensures s.config.hooks.commissioningFailure ==>
      OnCommissioningFailure(s, peer, err, stage, detail, Some(fabric)).events[1] ==
        CommissioningFailureCallback(ScopedNodeId(peer.nodeId, fabric), err, stage, detail)
  {
  }

  /** OnCommissioningFailure deletes the ICD record of (peer node id, controller
      fabric) exactly when the session marked the device as an ICD, and leaves
      every other record as it was. */
  lemma FailureDeletesOnlyIcdRecord(s: Session, peer: PeerId, err: ChipError, stage: CommissioningStage,
                                    detail: Option<AttestationVerificationResult>, fabric: Option<FabricIndex>)
    requires s.config.hooks.commissioningFailure ==> fabric.Some?
    ensures var after := OnCommissioningFailure(s, peer, err, stage, detail, fabric).session.storage;
      var id := ScopedNodeId(peer.nodeId, s.config.controllerFabricIndex);
      (s.deviceIsIcd && id in s.storage.entries ==> id !in after.entries) &&
      (!s.deviceIsIcd ==> after == s.storage) &&
      (forall p :: p != id ==> (p in after.entries <==> p in s.storage.entries)) &&
      (forall p :: p != id && p in s.storage.entries ==> after.entries[p] == s.storage.entries[p])
  {
  }

  // ------------------------------------------------------------ ICD registration

  /** OnICDRegistrationComplete is all or nothing: StoreEntry is tried only after
      SetKey succeeds; if either fails the key is removed, the storage's records
      and keys are back to what they were, and the ICD flag is untouched; if both
      succeed the record is filed under the device with a live copy of the
      session key, and the device is marked as an ICD. */
  lemma IcdRegistrationIsTransactional(s: Session, nodeId: ScopedNodeId, icdCounter: uint32,
                                       setKeyOk: bool, storeOk: bool)
    requires Valid(s.storage)
    ensures var o := OnIcdRegistrationComplete(s, nodeId, icdCounter, setKeyOk, storeOk);
      var info := RegistrationInfo(s.config, nodeId, icdCounter);
      o.events[0] == IcdSetKey(info) &&
      ((exists e :: e in o.events && e.IcdStoreEntry?) <==> setKeyOk) &&
      ((exists e :: e in o.events && e.IcdRemoveKey?) <==> !(setKeyOk && storeOk)) &&
      o.session.pairingDelegateSet == s.pairingDelegateSet &&
      if setKeyOk && storeOk then
        o.session.deviceIsIcd &&
        nodeId in o.session.storage.entries &&
        var stored := o.session.storage.entries[nodeId];
        stored == info.(keyHandle := stored.keyHandle) &&
        stored.keyHandle.Some? && o.session.storage.keys[stored.keyHandle.value] == s.config.icdSymmetricKey &&
        (forall p :: p != nodeId && p in s.storage.entries ==>
           p in o.session.storage.entries && o.session.storage.entries[p] == s.storage.entries[p])
      else
        o.session.deviceIsIcd == s.deviceIsIcd &&
        o.session.storage.entries == s.storage.entries &&
        o.session.storage.keys == s.storage.keys
  {
    var info := RegistrationInfo(s.config, nodeId, icdCounter);
    var (st1, keyed) := SetKey(s.storage, info, s.config.icdSymmetricKey, setKeyOk);
    var o := OnIcdRegistrationComplete(s, nodeId, icdCounter, setKeyOk, storeOk);
    if setKeyOk && !storeOk {
      var h := keyed.keyHandle.value;
      assert h !in s.storage.keys;
      assert st1.keys - {h} == s.storage.keys;
      assert o.session.storage == RemoveKey(StoreEntry(st1, keyed, false), keyed);
      assert o.events == [IcdSetKey(info), IcdStoreEntry(keyed), IcdRemoveKey(keyed)];
      assert o.events[1] in o.events && o.events[2] in o.events;
    } else if !setKeyOk {
      assert o.events == [IcdSetKey(info), IcdRemoveKey(keyed)];
      assert o.events[1] in o.events;
      assert forall e :: e in o.events ==> !e.IcdStoreEntry?;
    } else {
      assert o.events == [IcdSetKey(info), IcdStoreEntry(keyed)];
      assert o.events[1] in o.events;
      assert forall e :: e in o.events ==> !e.IcdRemoveKey?;
    }
  }

  /** Removing the same client info's key a second time changes nothing. */
  lemma RemoveKeyIdempotent(st: Store, info: ClientInfo)
    ensures RemoveKey(RemoveKey(st, info), info) == RemoveKey(st, info)
    ensures info.keyHandle.Some? ==> info.keyHandle.value !in RemoveKey(st, info).keys
  {
  }

  /** A commissioning failure after a successful ICD registration of the same
      device (registered on the controller's fabric) removes the record and its
      key again, and leaves every other record as it was before the registration. */
  lemma FailureUndoesIcdRegistration(s: Session, icdCounter: uint32, peer: PeerId, err: ChipError,
                                     stage: CommissioningStage, detail: Option<AttestationVerificationResult>,
                                     fabric: Option<FabricIndex>)
    requires Valid(s.storage)
    requires s.config.hooks.commissioningFailure ==> fabric.Some?
    ensures var id := ScopedNodeId(peer.nodeId, s.config.controllerFabricIndex);
      var registered := OnIcdRegistrationComplete(s, id, icdCounter, true, true);
      var h := registered.session.storage.entries[id].keyHandle.value;
      var after := OnCommissioningFailure(registered.session, peer, err, stage, detail, fabric).session.storage;
      id !in after.entries && h !in after.keys &&
      (forall p :: p != id ==> (p in after.entries <==> p in s.storage.entries)) &&
      (forall p :: p != id && p in s.storage.entries ==> after.entries[p] == s.storage.entries[p])
  {
  }

  /** The ICD storage invariant holds after every single step ... */
  lemma StepPreservesStorageValid(s: Session, i: Input)
    requires WellFormed(s.config, i) && Valid(s.storage)
    ensures Valid(Step(s, i).session.storage)
  {
  }

  /** ... and so after any sequence of steps. */
  lemma {:induction false} RunPreservesStorageValid(s: Session, inputs: seq<Input>)
    requires forall k :: 0 <= k < |inputs| ==> WellFormed(s.config, inputs[k])
    requires Valid(s.storage)
    ensures Valid(Run(s, inputs).final.storage)
    decreases |inputs|
  {
    if inputs != [] {
      StepPreservesStorageValid(s, inputs[0]);
      RunPreservesStorageValid(Step(s, inputs[0]).session, inputs[1..]);
    }
  }

  /** The ICD flag is reset only on paths that add ICD fields: a Wi-Fi-only
      pairing admitted after an earlier session marked a device as an ICD keeps
      the flag set, so if it fails, the ICD record filed under the new peer's node
      id on the controller's fabric is deleted although this session registered
      nothing. */
  lemma StaleIcdFlagDeletesEarlierRecord(s: Session, ssid: seq<byte>, password: seq<byte>, payload: string,
                                         peer: PeerId, err: ChipError, stage: CommissioningStage,
                                         fabric: Option<FabricIndex>)
    requires !s.pairingDelegateSet && s.deviceIsIcd
    requires s.config.hooks.commissioningFailure ==> fabric.Some?
    requires 0 in ssid && 0 in password
    requires ScopedNodeId(peer.nodeId, s.config.controllerFabricIndex) in s.storage.entries
    ensures var t := Run(s, [PairCodeWifi(peer.nodeId, ssid, password, payload),
                             CommissioningFailure(peer, err, stage, None, fabric)]);
      t.statuses[0] == Some(EspOk) &&
      ScopedNodeId(peer.nodeId, s.config.controllerFabricIndex) !in t.final.storage.entries
  {
    var inputs := [PairCodeWifi(peer.nodeId, ssid, password, payload),
                   CommissioningFailure(peer, err, stage, None, fabric)];
    var o := Step(s, inputs[0]);
    assert o.session.deviceIsIcd && o.session.storage == s.storage;
    assert inputs[1..] == [inputs[1]];
    assert Run(o.session, inputs[1..]).final == Step(o.session, inputs[1]).session;
  }

  /** An ICD payload pairing of a node, a successful ICD registration and
      commissioning success leave the node's record filed on the controller's
      fabric and the ICD flag set: no terminal callback resets the flag. */
  lemma IcdSessionLeavesRecordAndFlag(s: Session, payload: string, icdCounter: uint32, peer: PeerId,
                                      fabric: Option<FabricIndex>)
    requires !s.pairingDelegateSet && s.config.icdRegistration && Valid(s.storage)
    requires s.config.hooks.commissioningSuccess ==> fabric.Some?
    ensures var device := ScopedNodeId(peer.nodeId, s.config.controllerFabricIndex);
      var t := Run(s, [PairCode(peer.nodeId, payload), IcdRegistrationComplete(device, icdCounter, true, true),
                       CommissioningSuccess(peer, fabric)]);
      t.statuses[0] == Some(EspOk) &&
      !t.final.pairingDelegateSet && t.final.deviceIsIcd && device in t.final.storage.entries
  {
    var device := ScopedNodeId(peer.nodeId, s.config.controllerFabricIndex);
    var inputs := [PairCode(peer.nodeId, payload), IcdRegistrationComplete(device, icdCounter, true, true),
                   CommissioningSuccess(peer, fabric)];
    var o1 := Step(s, inputs[0]);
    var o2 := Step(o1.session, inputs[1]);
    IcdRegistrationIsTransactional(o1.session, device, icdCounter, true, true);
    var o3 := Step(o2.session, inputs[2]);
    assert inputs[1..][1..] == [inputs[2]];
    assert Run(o2.session, [inputs[2]]).final == o3.session;
    assert Run(s, inputs).final == o3.session;
  }

  /** The stale flag arises from an ordinary history: after the ICD session
      above, a Wi-Fi-only re-pairing of the same node is admitted, and its
      failure deletes the record the first session filed. */
  lemma IcdSessionThenWifiFailureDeletesItsRecord(s: Session, payload: string, icdCounter: uint32, peer: PeerId,
                                                  fabric: Option<FabricIndex>, ssid: seq<byte>,
                                                  password: seq<byte>, wifiPayload: string,
                                                  err: ChipError, stage: CommissioningStage)
    requires !s.pairingDelegateSet && s.config.icdRegistration && Valid(s.storage)
    requires 0 in ssid && 0 in password
    requires s.config.hooks.commissioningSuccess || s.config.hooks.commissioningFailure ==> fabric.Some?
    ensures var device := ScopedNodeId(peer.nodeId, s.config.controllerFabricIndex);
      var first := Run(s, [PairCode(peer.nodeId, payload), IcdRegistrationComplete(device, icdCounter, true, true),
                           CommissioningSuccess(peer, fabric)]);
      var second := Run(first.final, [PairCodeWifi(peer.nodeId, ssid, password, wifiPayload),
                                      CommissioningFailure(peer, err, stage, None, fabric)]);
      device in first.final.storage.entries &&
      second.statuses[0] == Some(EspOk) &&
      device !in second.final.storage.entries
  {
    var device := ScopedNodeId(peer.nodeId, s.config.controllerFabricIndex);
    var first := Run(s, [PairCode(peer.nodeId, payload), IcdRegistrationComplete(device, icdCounter, true, true),
                         CommissioningSuccess(peer, fabric)]);
    IcdSessionLeavesRecordAndFlag(s, payload, icdCounter, peer, fabric);
    StaleIcdFlagDeletesEarlierRecord(first.final, ssid, password, wifiPayload, peer, err, stage, fabric);
  }

  // ------------------------------------------------------------------- scenarios

  /** Pairing from a setup payload with no ICD request, then success: one
      PairDevice on the network with no ICD fields, then the release, then one
      success report for (fabric, node). */
  lemma CodePairingThenSuccess(s: Session, payload: string, compressedFabricId: CompressedFabricId,
                               fabric: FabricIndex)
    requires !s.pairingDelegateSet && !s.config.icdRegistration && s.config.hooks.commissioningSuccess
    ensures var peer := PeerId(compressedFabricId, 0x1234);
      var t := Run(s, [PairCode(0x1234, payload), CommissioningSuccess(peer, Some(fabric))]);
      t.statuses == [Some(EspOk), None] &&
      t.events == [RegisterPairingDelegate(true),
                   PairDeviceWithCode(0x1234, payload, NoParameters, DiscoveryNetworkOnly),
                   RegisterPairingDelegate(false),
                   CommissioningSuccessCallback(ScopedNodeId(0x1234, fabric))] &&
      !t.final.pairingDelegateSet
  {
    var peer := PeerId(compressedFabricId, 0x1234);
    var inputs := [PairCode(0x1234, payload), CommissioningSuccess(peer, Some(fabric))];
    var o := Step(s, inputs[0]);
    assert inputs[1..] == [inputs[1]];
    assert Run(o.session, inputs[1..]) == Run(o.session, [inputs[1]]);
  }

  /** Pairing from a payload with a Thread dataset and an ICD request, a
      successful ICD registration, then commissioning failure: the parameters
      carried the dataset and the ICD fields, and afterwards no ICD record is left
      for the device. */
  lemma ThreadIcdPairingThenFailure(s: Session, payload: string, dataset: seq<byte>, icdCounter: uint32,
                                    compressedFabricId: CompressedFabricId, err: ChipError,
                                    stage: CommissioningStage, fabric: Option<FabricIndex>)
    requires !s.pairingDelegateSet && s.config.icdRegistration
    requires s.config.hooks.commissioningFailure ==> fabric.Some?
    requires |dataset| == 16 && Valid(s.storage)
    ensures var device := ScopedNodeId(0x5678, s.config.controllerFabricIndex);
      var peer := PeerId(compressedFabricId, 0x5678);
      var inputs := [PairCodeThread(0x5678, payload, dataset, 16),
                     IcdRegistrationComplete(device, icdCounter, true, true),
                     CommissioningFailure(peer, err, stage, None, fabric)];
      var t := Run(s, inputs);
      t.events[1] == PairDeviceWithCode(0x5678, payload,
                                        CommissioningParameters(None, Some(dataset), RequestedIcd(s.config)),
                                        DiscoveryAll) &&
      device !in t.final.storage.entries &&
      !t.final.pairingDelegateSet
  {
    var device := ScopedNodeId(0x5678, s.config.controllerFabricIndex);
    var peer := PeerId(compressedFabricId, 0x5678);
    var inputs := [PairCodeThread(0x5678, payload, dataset, 16),
                   IcdRegistrationComplete(device, icdCounter, true, true),
                   CommissioningFailure(peer, err, stage, None, fabric)];
    var o1 := Step(s, inputs[0]);
    assert dataset[..16] == dataset;
    var o2 := Step(o1.session, inputs[1]);
    IcdRegistrationIsTransactional(o1.session, device, icdCounter, true, true);
    var o3 := Step(o2.session, inputs[2]);
    assert inputs[1..][1..] == [inputs[2]];
    assert Run(o2.session, [inputs[2]]).final == o3.session;
    assert Run(s, inputs).events == o1.events + Run(o1.session, inputs[1..]).events;
  }
}
