/** The `pairing_command` singleton as an object. Each method changes the
    object's fields step by step, in the order the code does, and appends the
    calls it makes to a ghost trace; its postcondition ties the new fields, the
    trace and the returned status to the matching transition in PairingSpec. */
module PairingOrchestrator {
  import opened MatterTypes
  import opened IcdClientStorage
  import opened CommissioningParams
  import Spec = PairingSpec

  class PairingCommand {
    /** The commissioner's delegate slots: set means this object is registered. */
    var pairingDelegateSet: bool
    var discoveryDelegateSet: bool
    /** m_setup_pincode, m_remote_node_id, m_device_is_icd. */
    var setupPinCode: uint32
    var remoteNodeId: NodeId
    var deviceIsIcd: bool
    /** The controller's ICD client storage. */
    var icdStorage: Store
    /** Commissioner identity, ICD registration settings and result hooks. */
    const config: Spec.Config
    /** Every call made on the commissioner, the ICD storage and the hooks. */
    ghost var trace: seq<Spec.Event>

    /** The abstract state of this object. */
    function State(): Spec.Session
      reads this
    {
      Spec.Session(pairingDelegateSet, discoveryDelegateSet, setupPinCode, remoteNodeId,
                   deviceIsIcd, icdStorage, config)
    }

    ghost predicate Valid()
      reads this
    {
      IcdClientStorage.Valid(icdStorage)
    }

    constructor (cfg: Spec.Config, storage: Store)
      requires IcdClientStorage.Valid(storage)
      ensures Valid()
      ensures State() == Spec.Session(false, false, 0, 0, false, storage, cfg)
      ensures trace == []
    {
      pairingDelegateSet, discoveryDelegateSet := false, false;
      setupPinCode, remoteNodeId, deviceIsIcd := 0, 0, false;
      icdStorage := storage;
      config := cfg;
      trace := [];
    }

    /** The shared ICD augmentation, applied to this object's ICD flag. */
    method AddIcdRegistration(params: CommissioningParameters) returns (r: CommissioningParameters)
      modifies this
      ensures icdStorage == old(icdStorage) && (old(Valid()) ==> Valid())
      ensures var o := Spec.AddIcdRegistration(old(State()), params);
        State() == o.0 && r == o.1
      ensures trace == old(trace)
    {
      r := params;
      if config.icdRegistration {
        deviceIsIcd := false;
        r := r.(icd := Some(IcdRegistrationFields(config.icdStrategy, config.commissionerNodeId,
                                                  config.icdSymmetricKey)));
      }
    }

    method PairingOnNetwork(nodeId: NodeId, pinCode: uint32, discoveryStarted: bool) returns (err: EspErr)
      modifies this
      ensures icdStorage == old(icdStorage) && (old(Valid()) ==> Valid())
      ensures var o := Spec.PairingOnNetwork(old(State()), nodeId, pinCode, discoveryStarted);
        State() == o.session && trace == old(trace) + o.events && Some(err) == o.status
    {
      if pairingDelegateSet {
        return EspErrInvalidState;
      }
      discoveryDelegateSet := true;
      trace := trace + [Spec.RegisterDiscoveryDelegate(true)];
      pairingDelegateSet := true;
      trace := trace + [Spec.RegisterPairingDelegate(true)];
      setupPinCode := pinCode;
      remoteNodeId := nodeId;
      trace := trace + [Spec.DiscoverCommissionableNodes];
      if !discoveryStarted {
        return EspFail;
      }
      return EspOk;
    }

    method PairingBleWifi(nodeId: NodeId, pinCode: uint32, discriminator: uint16,
                          ssid: seq<byte>, password: seq<byte>) returns (err: EspErr)
      requires 0 in ssid && 0 in password
      modifies this
      ensures icdStorage == old(icdStorage) && (old(Valid()) ==> Valid())
      ensures var o := Spec.PairingBleWifi(old(State()), nodeId, pinCode, discriminator, ssid, password);
        State() == o.session && trace == old(trace) + o.events && Some(err) == o.status
    {
      var rendezvous := RendezvousParameters(pinCode, Some(discriminator), Ble);
      if pairingDelegateSet {
        return EspErrInvalidState;
      }
      pairingDelegateSet := true;
      trace := trace + [Spec.RegisterPairingDelegate(true)];
      var wifi := WiFiCredentials(CStringSpan(ssid), CStringSpan(password));
      var params := NoParameters.(wifi := Some(wifi));
      trace := trace + [Spec.PairDevice(nodeId, rendezvous, params)];
      return EspOk;
    }

    method PairingBleThread(nodeId: NodeId, pinCode: uint32, discriminator: uint16,
                            datasetTlvs: seq<byte>, datasetLen: uint8) returns (err: EspErr)
      requires datasetLen <= |datasetTlvs|
      modifies this
      ensures icdStorage == old(icdStorage) && (old(Valid()) ==> Valid())
      ensures var o := Spec.PairingBleThread(old(State()), nodeId, pinCode, discriminator, datasetTlvs, datasetLen);
        State() == o.session && trace == old(trace) + o.events && Some(err) == o.status
    {
      var rendezvous := RendezvousParameters(pinCode, Some(discriminator), Ble);
      if pairingDelegateSet {
        return EspErrInvalidState;
      }
      pairingDelegateSet := true;
      trace := trace + [Spec.RegisterPairingDelegate(true)];
      var params := NoParameters.(threadDataset := Some(datasetTlvs[..datasetLen]));
      params := AddIcdRegistration(params);
      trace := trace + [Spec.PairDevice(nodeId, rendezvous, params)];
      return EspOk;
    }

    method PairingCode(nodeId: NodeId, payload: string) returns (err: EspErr)
      modifies this
      ensures icdStorage == old(icdStorage) && (old(Valid()) ==> Valid())
      ensures var o := Spec.PairingCode(old(State()), nodeId, payload);
        State() == o.session && trace == old(trace) + o.events && Some(err) == o.status
    {
      var params := NoParameters;
      if pairingDelegateSet {
        return EspErrInvalidState;
      }
      params := AddIcdRegistration(params);
      pairingDelegateSet := true;
      trace := trace + [Spec.RegisterPairingDelegate(true)];
      trace := trace + [Spec.PairDeviceWithCode(nodeId, payload, params, DiscoveryNetworkOnly)];
      return EspOk;
    }

    method PairingCodeThread(nodeId: NodeId, payload: string, datasetBuf: seq<byte>, datasetLen: uint8)
      returns (err: EspErr)
      requires datasetLen <= |datasetBuf|
      modifies this
      ensures icdStorage == old(icdStorage) && (old(Valid()) ==> Valid())
      ensures var o := Spec.PairingCodeThread(old(State()), nodeId, payload, datasetBuf, datasetLen);
        State() == o.session && trace == old(trace) + o.events && Some(err) == o.status
    {
      var params := NoParameters.(threadDataset := Some(datasetBuf[..datasetLen]));
      if pairingDelegateSet {
        return EspErrInvalidState;
      }
      params := AddIcdRegistration(params);
      pairingDelegateSet := true;
      trace := trace + [Spec.RegisterPairingDelegate(true)];
      trace := trace + [Spec.PairDeviceWithCode(nodeId, payload, params, DiscoveryAll)];
      return EspOk;
    }

    method PairingCodeWifi(nodeId: NodeId, ssid: seq<byte>, password: seq<byte>, payload: string)
      returns (err: EspErr)
      requires 0 in ssid && 0 in password
      modifies this
      ensures icdStorage == old(icdStorage) && (old(Valid()) ==> Valid())
      ensures var o := Spec.PairingCodeWifi(old(State()), nodeId, ssid, password, payload);
        State() == o.session && trace == old(trace) + o.events && Some(err) == o.status
    {
      var wifi := WiFiCredentials(CStringSpan(ssid), CStringSpan(password));
      var params := NoParameters.(wifi := Some(wifi));
      if pairingDelegateSet {
        return EspErrInvalidState;
      }
      pairingDelegateSet := true;
      trace := trace + [Spec.RegisterPairingDelegate(true)];
      trace := trace + [Spec.PairDeviceWithCode(nodeId, payload, params, DiscoveryAll)];
      return EspOk;
    }

    method PairingCodeWifiThread(nodeId: NodeId, ssid: seq<byte>, password: seq<byte>, payload: string,
                                 datasetBuf: seq<byte>, datasetLen: uint8) returns (err: EspErr)
      requires 0 in ssid && 0 in password && datasetLen <= |datasetBuf|
      modifies this
      ensures icdStorage == old(icdStorage) && (old(Valid()) ==> Valid())
      ensures var o := Spec.PairingCodeWifiThread(old(State()), nodeId, ssid, password, payload, datasetBuf, datasetLen);
        State() == o.session && trace == old(trace) + o.events && Some(err) == o.status
    {
      var wifi := WiFiCredentials(CStringSpan(ssid), CStringSpan(password));
      var params := NoParameters.(wifi := Some(wifi), threadDataset := Some(datasetBuf[..datasetLen]));
      if pairingDelegateSet {
        return EspErrInvalidState;
      }
      params := AddIcdRegistration(params);
      pairingDelegateSet := true;
      trace := trace + [Spec.RegisterPairingDelegate(true)];
      trace := trace + [Spec.PairDeviceWithCode(nodeId, payload, params, DiscoveryAll)];
      return EspOk;
    }

    method OnDiscoveredDevice(nodeData: CommissionNodeData)
      modifies this
      ensures icdStorage == old(icdStorage) && (old(Valid()) ==> Valid())
      ensures var o := Spec.OnDiscoveredDevice(old(State()), nodeData);
        State() == o.session && trace == old(trace) + o.events
    {
      if nodeData.commissioningMode == 0 {
        return;
      }
      discoveryDelegateSet := false;
      trace := trace + [Spec.RegisterDiscoveryDelegate(false)];
      var iface := if IsIPv6LinkLocal(nodeData.ipAddress) then nodeData.interfaceId else NullInterface;
      var peer := Udp(nodeData.ipAddress, nodeData.port, iface);
      var rendezvous := RendezvousParameters(setupPinCode, None, peer);
      var params := AddIcdRegistration(NoParameters);
      trace := trace + [Spec.PairDevice(remoteNodeId, rendezvous, params)];
    }

    method OnPairingComplete(err: ChipError)
      modifies this
      ensures icdStorage == old(icdStorage) && (old(Valid()) ==> Valid())
      ensures var o := Spec.OnPairingComplete(old(State()), err);
        State() == o.session && trace == old(trace) + o.events
    {
      if err != NoError {
        pairingDelegateSet := false;
        trace := trace + [Spec.RegisterPairingDelegate(false)];
      }
      if config.hooks.pase {
        trace := trace + [Spec.PaseCallback(err)];
      }
    }

    /** `fabric` is the result of FindFabricWithCompressedId for the peer. */
    method OnCommissioningSuccess(peer: PeerId, fabric: Option<FabricIndex>)
      requires config.hooks.commissioningSuccess ==> fabric.Some?
      modifies this
      ensures icdStorage == old(icdStorage) && (old(Valid()) ==> Valid())
      ensures var o := Spec.OnCommissioningSuccess(old(State()), peer, fabric);
        State() == o.session && trace == old(trace) + o.events
    {
      pairingDelegateSet := false;
      trace := trace + [Spec.RegisterPairingDelegate(false)];
      if config.hooks.commissioningSuccess {
        trace := trace + [Spec.CommissioningSuccessCallback(CallbackIdentity(fabric.value, peer))];
      }
    }

    /** `fabric` is the result of FindFabricWithCompressedId for the peer. */
    method OnCommissioningFailure(peer: PeerId, err: ChipError, stage: CommissioningStage,
                                  detail: Option<AttestationVerificationResult>, fabric: Option<FabricIndex>)
      requires config.hooks.commissioningFailure ==> fabric.Some?
      requires Valid()
      modifies this
      ensures Valid()
      ensures var o := Spec.OnCommissioningFailure(old(State()), peer, err, stage, detail, fabric);
        State() == o.session && trace == old(trace) + o.events
    {
      pairingDelegateSet := false;
      trace := trace + [Spec.RegisterPairingDelegate(false)];
      if config.hooks.commissioningFailure {
        trace := trace + [Spec.CommissioningFailureCallback(CallbackIdentity(fabric.value, peer), err, stage, detail)];
      }
      if deviceIsIcd {
        var id := ScopedNodeId(peer.nodeId, config.controllerFabricIndex);
        icdStorage := DeleteEntry(icdStorage, id);
        trace := trace + [Spec.IcdDeleteEntry(id)];
      }
    }

    /** `setKeyOk` and `storeOk` are the results of SetKey and StoreEntry. */
    method OnIcdRegistrationComplete(nodeId: ScopedNodeId, icdCounter: uint32, setKeyOk: bool, storeOk: bool)
      requires Valid()
      modifies this
      ensures Valid()
      ensures var o := Spec.OnIcdRegistrationComplete(old(State()), nodeId, icdCounter, setKeyOk, storeOk);
        State() == o.session && trace == old(trace) + o.events
    {
      var commissionerNodeId := config.commissionerNodeId;
      var clientInfo := ClientInfo(ScopedNodeId(commissionerNodeId, nodeId.fabricIndex), nodeId,
                                   commissionerNodeId, icdCounter, None);
      trace := trace + [Spec.IcdSetKey(clientInfo)];
      var keyedStorage := SetKey(icdStorage, clientInfo, config.icdSymmetricKey, setKeyOk);
      var keyed := keyedStorage.1;
      icdStorage := keyedStorage.0;
      var ok := setKeyOk;
      if ok {
        icdStorage := StoreEntry(icdStorage, keyed, storeOk);
        trace := trace + [Spec.IcdStoreEntry(keyed)];
        ok := storeOk;
      }
      if !ok {
        icdStorage := RemoveKey(icdStorage, keyed);
        trace := trace + [Spec.IcdRemoveKey(keyed)];
        return;
      }
      deviceIsIcd := true;
    }
  }
}
