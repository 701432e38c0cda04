# Pairing orchestrator of the esp-matter controller

This project models the `pairing_command` singleton of the esp-matter
controller. The singleton drives a Matter device through commissioning from
the commissioner's side (chapter 5 of the Matter Core Specification). It has
three jobs:

- Admit one pairing attempt at a time. The commissioner's pairing-delegate slot is the lock.
- Start a pairing in one of seven ways: DNS-SD discovery on the network, BLE with Wi-Fi or Thread credentials, or an onboarding payload with or without Wi-Fi credentials or a Thread dataset.
- React to five callbacks: node discovered, PASE result, commissioning success, commissioning failure and ICD registration complete.

It also keeps the controller's ICD client storage consistent. A key is set, then the record is stored. If either step fails, the key is removed. A record created earlier in a session is deleted when that session's commissioning fails.

The model has six modules:

- `MatterTypes` (types.dfy): node ids, scoped node ids, error codes, addresses, and the rendezvous and commissioning parameter records.
- `IcdClientStorage` (icd_client_storage.dfy): the ICD client storage as a value. A record table is keyed by the peer's scoped node id. A key store hands out a fresh handle per key. `Valid` is its invariant.
- `CommissioningParams` (commissioning_params.dfy): builders shared by the entry points. They cover C-string spans, the interface chosen for a discovered peer, the ICD fields, and the identity reported to the result hooks.
- `PairingSpec` (pairing_spec.dfy): the orchestrator as a state machine over values. It has one transition function per entry point and per callback. Each transition returns the new `Session`, the calls made in order (`Event`s) and the returned `esp_err_t`. `Run` folds a sequence of inputs.
- `PairingOrchestrator` (pairing_orchestrator.dfy): the class `PairingCommand`. Its fields are the delegate slots, PIN, node id, ICD flag and ICD storage, plus a ghost trace of calls. Every method mutates the fields in the order the C++ does. Each method is proved to give exactly the state, trace and status of its transition function.
- `PairingProperties` (pairing_properties.dfy): lemmas about the transitions. They cover single-flight admission, release before notification, the discovery filter, the shared ICD augmentation, transactional ICD registration, and its undo on failure. Two end-to-end scenarios are included.

Collaborator results are inputs of the model:

- whether DNS-SD discovery could be started;
- whether `SetKey` and `StoreEntry` succeed;
- the fabric found by `FindFabricWithCompressedId`.

The code dereferences the fabric lookup result without a check when a result hook is installed. So "a fabric was found" is a precondition of the two commissioning result callbacks whenever their hook is installed.

Behaviour of the code that the model keeps, though it may surprise a reader:

- Admission checks only the pairing-delegate slot, not the discovery slot.
- The PASE hook is called on success as well as on failure.
- A failed ICD registration leaves `deviceIsIcd` unchanged rather than setting it to false.
- Once `pairing_on_network` has registered both delegates, a failure to start discovery returns `ESP_FAIL` without unregistering them. Until a terminal callback arrives, every later entry point is refused (`DiscoveryStartFailureKeepsDelegates`).
- The ICD flag is reset only on paths that add ICD fields. No terminal callback resets it either. So after an ICD session that ends in success, a failed Wi-Fi-only re-pairing of the same node deletes the ICD record that session filed (`IcdSessionThenWifiFailureDeletesItsRecord`, built on `StaleIcdFlagDeletesEarlierRecord`).

## Model

| member | source | states |
|---|---|---|
| `IcdClientStorage.SetKey` | components/esp_matter_controller/commands/esp_matter_controller_pairing_command.cpp:89 | on success the key is stored under a handle that no record uses, and the client info names that handle; on failure nothing changes; storage validity is kept |
| `IcdClientStorage.StoreEntry` | components/esp_matter_controller/commands/esp_matter_controller_pairing_command.cpp:91 | on success the record is filed under its peer, replacing any earlier one, and validity is kept when its key is live and unused; on failure nothing changes |
| `IcdClientStorage.RemoveKey` | components/esp_matter_controller/commands/esp_matter_controller_pairing_command.cpp:94 | drops only the key the client info names; records are untouched; validity is kept when no record uses that key |
| `IcdClientStorage.DeleteEntry` | components/esp_matter_controller/commands/esp_matter_controller_pairing_command.cpp:75-76 | the record under the id is gone together with its key, every other record is unchanged, a missing record changes nothing, validity is kept |
| `CommissioningParams.StrLen` | components/esp_matter_controller/commands/esp_matter_controller_pairing_command.cpp:164-165 | strlen: the result indexes the first NUL of the buffer and no byte before it is NUL |
| `CommissioningParams.CStringSpan` | components/esp_matter_controller/commands/esp_matter_controller_pairing_command.cpp:244-245 | the ByteSpan of a C string is the buffer's prefix before its first NUL and contains no NUL |
| `CommissioningParams.IsIPv6LinkLocal` | components/esp_matter_controller/commands/esp_matter_controller_pairing_command.cpp:119-120 | the address is IPv6 link-local exactly when it starts with the ten bits 1111111010 of fe80::/10 followed by 54 zero bits, the form of section 2.5.6 of RFC 4291 |
| `CommissioningParams.DiscoveredPeer` | components/esp_matter_controller/commands/esp_matter_controller_pairing_command.cpp:119-121 | UDP peer at the node's first address and port; the advertised interface is used if and only if that address is IPv6 link-local, otherwise the null interface |
| `CommissioningParams.CallbackIdentityAsWritten` | components/esp_matter_controller/commands/esp_matter_controller_pairing_command.cpp:55 | the identity as the code builds it: the fabric index lands in the node-id slot and only the low byte of the node id in the fabric-index slot, which keeps the node id only for node ids below 0x100 |
| `CommissioningParams.CallbackIdentity` | components/esp_matter_controller/commands/esp_matter_controller_pairing_command.cpp:55 | corrected identity for the result hooks: the peer's node id scoped to the fabric found for its compressed fabric id |
| `CommissioningParams.CallbackIdentityAsWrittenIsWrong` | components/esp_matter_controller/commands/esp_matter_controller_pairing_command.cpp:71 | the identity the code builds equals the intended one if and only if the peer's node id equals the fabric index |
| `CommissioningParams.CallbackIdentityAsWrittenExample` | components/esp_matter_controller/commands/esp_matter_controller_pairing_command.cpp:55 | node 0x1234 on fabric 1 is reported by the code as node 1 on fabric 0x34, where the intended report is node 0x1234 on fabric 1 |
| `PairingSpec.AddIcdRegistration` | components/esp_matter_controller/commands/esp_matter_controller_pairing_command.cpp:204-211 | when ICD registration is configured, resets `deviceIsIcd` and adds the configured ICD fields, keeping the Wi-Fi and Thread fields; otherwise changes nothing |
| `PairingSpec.PairingOnNetwork` | components/esp_matter_controller/commands/esp_matter_controller_pairing_command.cpp:136-151 | busy: ESP_ERR_INVALID_STATE and no change; otherwise both delegates registered, PIN and node id stored, discovery started, ESP_FAIL if it could not start and ESP_OK if it could |
| `PairingSpec.PairingBleWifi` | components/esp_matter_controller/commands/esp_matter_controller_pairing_command.cpp:154-170 | busy: rejected with no change; otherwise ESP_OK, the pairing delegate is the only state change, and the calls are: register, then one PairDevice of the caller's node id over BLE with the caller's PIN and discriminator, carrying the ssid and password without their NUL and no ICD fields |
| `PairingSpec.PairingBleThread` | components/esp_matter_controller/commands/esp_matter_controller_pairing_command.cpp:172-194 | busy: rejected with no change; otherwise ESP_OK, only the delegate and the ICD flag (reset when ICD registration is configured) change, and the calls are: register, then one PairDevice of the caller's node id over BLE with the caller's PIN and discriminator, carrying the first `dataset_len` dataset bytes and the requested ICD fields |
| `PairingSpec.PairingCode` | components/esp_matter_controller/commands/esp_matter_controller_pairing_command.cpp:197-216 | busy: rejected with no change; otherwise ESP_OK, only the delegate and the ICD flag change, and the calls are: register, then one PairDevice of the caller's node id from the caller's payload, network-only discovery, parameters holding just the requested ICD fields |
| `PairingSpec.PairingCodeThread` | components/esp_matter_controller/commands/esp_matter_controller_pairing_command.cpp:218-240 | busy: rejected with no change; otherwise ESP_OK, only the delegate and the ICD flag change, and the calls are: register, then one PairDevice of the caller's node id from the caller's payload over all transports, carrying the dataset prefix and the requested ICD fields |
| `PairingSpec.PairingCodeWifi` | components/esp_matter_controller/commands/esp_matter_controller_pairing_command.cpp:242-256 | busy: rejected with no change; otherwise ESP_OK, the delegate is the only state change (the ICD flag is untouched), and the calls are: register, then one PairDevice of the caller's node id from the caller's payload over all transports, carrying the ssid and password without their NUL and no ICD fields |
| `PairingSpec.PairingCodeWifiThread` | components/esp_matter_controller/commands/esp_matter_controller_pairing_command.cpp:258-285 | busy: rejected with no change; otherwise ESP_OK, only the delegate and the ICD flag change, and the calls are: register, then one PairDevice of the caller's node id from the caller's payload over all transports, carrying the Wi-Fi credentials without their NUL, the dataset prefix and the requested ICD fields |
| `PairingSpec.OnDiscoveredDevice` | components/esp_matter_controller/commands/esp_matter_controller_pairing_command.cpp:106-134 | makes calls if and only if the node's commissioning window is open; never touches the pairing delegate or the ICD storage |
| `PairingSpec.OnPairingComplete` | components/esp_matter_controller/commands/esp_matter_controller_pairing_command.cpp:32-44 | the pairing delegate stays registered only if the result is success; the PASE hook, when installed, receives the result unchanged |
| `PairingSpec.OnCommissioningSuccess` | components/esp_matter_controller/commands/esp_matter_controller_pairing_command.cpp:46-57 | the first call releases the pairing delegate; the released delegate is the only change, so PIN, node id, discovery slot, ICD flag and ICD storage are kept |
| `PairingSpec.FailedIcdRecord` | components/esp_matter_controller/commands/esp_matter_controller_pairing_command.cpp:74-76 | the ICD record deleted on failure is the peer's node id on the controller's own fabric |
| `PairingSpec.OnCommissioningFailure` | components/esp_matter_controller/commands/esp_matter_controller_pairing_command.cpp:59-78 | the first call releases the pairing delegate; apart from that release and the ICD storage, which stays valid, nothing changes: PIN, node id, discovery slot and ICD flag are kept |
| `PairingSpec.RegistrationInfo` | components/esp_matter_controller/commands/esp_matter_controller_pairing_command.cpp:83-88 | the client record names the device as peer, the commissioner on the device's fabric as check-in node, the commissioner as monitored subject, the given ICD counter, and no key yet |
| `PairingSpec.OnIcdRegistrationComplete` | components/esp_matter_controller/commands/esp_matter_controller_pairing_command.cpp:80-98 | the registration step keeps the ICD storage valid |
| `PairingOrchestrator.PairingCommand.AddIcdRegistration` | components/esp_matter_controller/commands/esp_matter_controller_pairing_command.cpp:125-132 | updates the object's ICD flag and returns the parameters exactly as `PairingSpec.AddIcdRegistration`; the ICD storage is untouched, so its invariant is kept |
| `PairingOrchestrator.PairingCommand.PairingOnNetwork` | components/esp_matter_controller/commands/esp_matter_controller_pairing_command.cpp:136-151 | the new fields, the calls appended to the trace and the returned status are those of `PairingSpec.PairingOnNetwork`; the ICD storage is untouched, so its invariant is kept |
| `PairingOrchestrator.PairingCommand.PairingBleWifi` | components/esp_matter_controller/commands/esp_matter_controller_pairing_command.cpp:154-170 | new fields, trace and status are those of `PairingSpec.PairingBleWifi`; the ICD storage is untouched, so its invariant is kept |
| `PairingOrchestrator.PairingCommand.PairingBleThread` | components/esp_matter_controller/commands/esp_matter_controller_pairing_command.cpp:172-194 | new fields, trace and status are those of `PairingSpec.PairingBleThread`; the ICD storage is untouched, so its invariant is kept |
| `PairingOrchestrator.PairingCommand.PairingCode` | components/esp_matter_controller/commands/esp_matter_controller_pairing_command.cpp:197-216 | new fields, trace and status are those of `PairingSpec.PairingCode`; the ICD storage is untouched, so its invariant is kept |
| `PairingOrchestrator.PairingCommand.PairingCodeThread` | components/esp_matter_controller/commands/esp_matter_controller_pairing_command.cpp:218-240 | new fields, trace and status are those of `PairingSpec.PairingCodeThread`; the ICD storage is untouched, so its invariant is kept |
| `PairingOrchestrator.PairingCommand.PairingCodeWifi` | components/esp_matter_controller/commands/esp_matter_controller_pairing_command.cpp:242-256 | new fields, trace and status are those of `PairingSpec.PairingCodeWifi`; the ICD storage is untouched, so its invariant is kept |
| `PairingOrchestrator.PairingCommand.PairingCodeWifiThread` | components/esp_matter_controller/commands/esp_matter_controller_pairing_command.cpp:258-285 | new fields, trace and status are those of `PairingSpec.PairingCodeWifiThread`; the ICD storage is untouched, so its invariant is kept |
| `PairingOrchestrator.PairingCommand.OnDiscoveredDevice` | components/esp_matter_controller/commands/esp_matter_controller_pairing_command.cpp:106-134 | new fields and trace are those of `PairingSpec.OnDiscoveredDevice`; the ICD storage is untouched, so its invariant is kept |
| `PairingOrchestrator.PairingCommand.OnPairingComplete` | components/esp_matter_controller/commands/esp_matter_controller_pairing_command.cpp:32-44 | new fields and trace are those of `PairingSpec.OnPairingComplete`; the ICD storage is untouched, so its invariant is kept |
| `PairingOrchestrator.PairingCommand.OnCommissioningSuccess` | components/esp_matter_controller/commands/esp_matter_controller_pairing_command.cpp:46-57 | new fields and trace are those of `PairingSpec.OnCommissioningSuccess`; the ICD storage is untouched, so its invariant is kept |
| `PairingOrchestrator.PairingCommand.OnCommissioningFailure` | components/esp_matter_controller/commands/esp_matter_controller_pairing_command.cpp:59-78 | new fields and trace are those of `PairingSpec.OnCommissioningFailure`; the storage invariant is kept |
| `PairingOrchestrator.PairingCommand.OnIcdRegistrationComplete` | components/esp_matter_controller/commands/esp_matter_controller_pairing_command.cpp:80-98 | new fields and trace are those of `PairingSpec.OnIcdRegistrationComplete`; the storage invariant is kept |
| `PairingProperties.BusyEntryPointChangesNothing` | components/esp_matter_controller/commands/esp_matter_controller_pairing_command.cpp:136-285 | every entry point returns ESP_ERR_INVALID_STATE if and only if a pairing delegate is registered, and then changes no state and makes no call; otherwise it leaves the delegate registered |
| `PairingProperties.BusyEntryPointStaysBusy` | components/esp_matter_controller/commands/esp_matter_controller_pairing_command.cpp:32-44 | from a busy state, any non-terminal input keeps the pairing delegate registered and keeps the PIN and node id |
| `PairingProperties.InFlightSessionExcludesOthers` | components/esp_matter_controller/commands/esp_matter_controller_pairing_command.cpp:140-141 | for every input sequence without a terminal callback, once a session is in flight every entry point in the sequence is refused and the PIN and node id never change |
| `PairingProperties.DiscoveryStartFailureKeepsDelegates` | components/esp_matter_controller/commands/esp_matter_controller_pairing_command.cpp:142-150 | a discovery-start failure returns ESP_FAIL after both delegates were registered and PIN and node id stored; all later entry points are refused until a terminal callback |
| `PairingProperties.ClosedWindowNodeIgnored` | components/esp_matter_controller/commands/esp_matter_controller_pairing_command.cpp:110 | a node whose commissioning mode is 0 changes nothing and causes no call |
| `PairingProperties.OpenWindowNodePaired` | components/esp_matter_controller/commands/esp_matter_controller_pairing_command.cpp:117-133 | an open node unregisters the discovery delegate and causes exactly one PairDevice with the stored node id and PIN, to the node's first address and port, on the advertised interface only for an IPv6 link-local address; the only other change is the ICD flag |
| `PairingProperties.IcdAugmentationUniform` | components/esp_matter_controller/commands/esp_matter_controller_pairing_command.cpp:184-191 | on every path that starts a pairing, the parameters carry the requested ICD fields on the ICD-capable paths and none on the Wi-Fi-only ones; the ICD flag is reset exactly when ICD fields are added |
| `PairingProperties.AdmittedEntryPointPairsRequestedNode` | components/esp_matter_controller/commands/esp_matter_controller_pairing_command.cpp:154-285 | every admitted entry point other than `pairing_on_network` returns ESP_OK, registers the delegate, and makes one PairDevice for the caller's node id, from the caller's payload exactly on the payload paths, over BLE with the caller's PIN and discriminator otherwise, with the caller's Wi-Fi credentials and dataset prefix exactly on the paths that take them; PIN, node id, discovery slot and storage are unchanged |
| `PairingProperties.RequestedIcdFields` | components/esp_matter_controller/commands/esp_matter_controller_pairing_command.cpp:127-131 | the ICD fields are present if and only if registration is configured, and they are the configured strategy, a permanent client, the commissioner as check-in node and monitored subject, and the session key |
| `PairingProperties.CredentialsAreCStringContents` | components/esp_matter_controller/commands/esp_matter_controller_pairing_command.cpp:261-268 | the Wi-Fi ssid and password sent are the C strings without their NUL, and the dataset is the first `dataset_len` bytes |
| `PairingProperties.PaseResultReported` | components/esp_matter_controller/commands/esp_matter_controller_pairing_command.cpp:32-44 | the only state change is releasing the delegate, done if and only if the result is an error; the PASE hook is the last call, gets the result unchanged, and is called exactly once when installed |
| `PairingProperties.TerminalCallbacksReleaseBeforeNotify` | components/esp_matter_controller/commands/esp_matter_controller_pairing_command.cpp:46-78 | each terminal callback ends with the pairing delegate unregistered, makes the release its first call, and reports exactly once when the matching hook is installed and never otherwise |
| `PairingProperties.CommissioningResultIdentity` | components/esp_matter_controller/commands/esp_matter_controller_pairing_command.cpp:67-73 | the success and failure hooks receive the peer's node id on the looked-up fabric; the failure hook also gets the error, stage and detail unchanged |
| `PairingProperties.FailureDeletesOnlyIcdRecord` | components/esp_matter_controller/commands/esp_matter_controller_pairing_command.cpp:74-77 | failure removes the record of (peer node id, controller fabric) when the device was marked ICD, leaves the storage untouched otherwise, and never touches another record |
| `PairingProperties.IcdRegistrationIsTransactional` | components/esp_matter_controller/commands/esp_matter_controller_pairing_command.cpp:80-98 | StoreEntry is tried if and only if SetKey succeeded, and the key is removed if and only if a step failed; on failure records and keys are exactly as before and the ICD flag is unchanged; on success the record is filed under the device with the session key and the flag is set |
| `PairingProperties.RemoveKeyIdempotent` | components/esp_matter_controller/commands/esp_matter_controller_pairing_command.cpp:93-95 | rolling back a key twice has the same effect as once, and the key is absent afterwards |
| `PairingProperties.FailureUndoesIcdRegistration` | components/esp_matter_controller/commands/esp_matter_controller_pairing_command.cpp:74-76 | a successful ICD registration of a device on the controller fabric, followed by commissioning failure for it, leaves neither its record nor its key, and every other record as before |
| `PairingProperties.StepPreservesStorageValid` | components/esp_matter_controller/commands/esp_matter_controller_pairing_command.cpp:80-98 | every entry point and callback keeps the ICD storage invariant |
| `PairingProperties.RunPreservesStorageValid` | components/esp_matter_controller/commands/esp_matter_controller_pairing_command.cpp:59-98 | every sequence of inputs keeps the ICD storage invariant |
| `PairingProperties.StaleIcdFlagDeletesEarlierRecord` | components/esp_matter_controller/commands/esp_matter_controller_pairing_command.cpp:242-256 | a Wi-Fi-only payload pairing admitted with the ICD flag still set returns ESP_OK and leaves the flag set; if it then fails, the peer's existing ICD record is deleted, whether or not the failure hook is installed |
| `PairingProperties.IcdSessionLeavesRecordAndFlag` | components/esp_matter_controller/commands/esp_matter_controller_pairing_command.cpp:46-98 | from an idle session, an ICD payload pairing of a node, a successful ICD registration and commissioning success leave the delegate released, the node's record filed on the controller's fabric and the ICD flag still set |
| `PairingProperties.IcdSessionThenWifiFailureDeletesItsRecord` | components/esp_matter_controller/commands/esp_matter_controller_pairing_command.cpp:242-256 | after that ICD session, a Wi-Fi-only re-pairing of the same node returns ESP_OK, and its commissioning failure deletes the record the first session filed |
| `PairingProperties.CodePairingThenSuccess` | components/esp_matter_controller/commands/esp_matter_controller_pairing_command.cpp:197-216 | pairing node 0x1234 from a payload without ICD, then success, makes exactly these calls: register, PairDevice on the network with empty parameters, release, one success report for (0x1234, fabric) |
| `PairingProperties.ThreadIcdPairingThenFailure` | components/esp_matter_controller/commands/esp_matter_controller_pairing_command.cpp:218-240 | Thread payload pairing of node 0x5678 with ICD, a successful registration, then failure: the parameters carried the 16-byte dataset and the ICD fields, and no ICD record is left for the device |

## Left out

- `unpair_device` and `remove_fabric_handler`: a pass-through to the controller's unpair call plus logging; nothing to state beyond the returned status of an unseen call.
- `OnICDStayActiveComplete`: logging only.
- Logging and the IP-address `ToString` used only for it: output only. The local `port` copy made at line 111 also builds the peer address at line 121; the model reads `nodeData.port` directly, which is the same value.
- The internals of `PairDevice`, `DiscoverCommissionableNodes`, PASE, DNS-SD and the BLE and UDP transports. They appear only as recorded calls, and their outcomes as inputs.
- The encoding of onboarding payloads and rendezvous parameters: payloads are passed through as strings.
- The discovery filter (`kNone`): it is fixed and only passed through, so the recorded discovery call carries no filter.
- How `m_icd_registration`, `m_icd_registration_strategy`, `m_icd_symmetric_key` and the result hooks are set. Their setters are not part of this model. They are fixed at construction of `PairingCommand`. The commissioner's own node id and fabric index are fixed there too.
- `CONFIG_ENABLE_ESP32_BLE_CONTROLLER`: the two BLE entry points are modelled as compiled in.
- Only the first IP address of a discovered node is modelled, because it is the only one the code reads.
- The implementation of the controller's ICD client storage is not part of this model. `IcdClientStorage` models it as a value under these assumptions:
  - `SetKey` issues a fresh key handle.
  - `StoreEntry` replaces any record filed for the same peer.
  - A failed `SetKey` or `StoreEntry` writes nothing.
  - `DeleteEntry` removes the record's key with the record.
  - Keys are single handles; the real store keeps an AES and an HMAC key per record.
- `PairingSpec.OnCommissioningSuccess` and `PairingSpec.OnCommissioningFailure` report the corrected identity, not the swapped one the code builds; see Findings.
- When a result hook is installed and no fabric matches the peer, the code dereferences a null pointer. That case is excluded by a precondition rather than modelled.
- The real system delivers callbacks only to the registered delegate. The model does not assume this: every callback is total over every state.
- Concurrency: the orchestrator is driven by one event loop, and the model treats every call as atomic.

## Findings

| source | as written | input that shows it | evidently intended | confidence | as-written member | corrected member |
|---|---|---|---|---|---|---|
| components/esp_matter_controller/commands/esp_matter_controller_pairing_command.cpp:55 | `ScopedNodeId(fabric->GetFabricIndex(), peerId.GetNodeId())` passes the fabric index as the node id and the 64-bit node id as the 8-bit fabric index. The same file builds `ScopedNodeId(node, fabric)` at lines 76 and 85. Line 71 repeats the swap for the failure hook. | peer node 0x1234 on a fabric with index 1: the hook receives node 1 on fabric 0x34 | `ScopedNodeId(peerId.GetNodeId(), fabric->GetFabricIndex())`: node 0x1234 on fabric 1 | high; not executed | `CommissioningParams.CallbackIdentityAsWritten` | `CommissioningParams.CallbackIdentity` |
