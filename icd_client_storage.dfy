/** The ICD client storage that the orchestrator writes to, reduced to what the
    orchestrator relies on: a persisted table of client records keyed by the
    peer's scoped node id, and a key store that hands out a fresh handle for
    every key it is given. Whether a SetKey or StoreEntry call succeeds is not
    decided here: the caller passes the outcome in. */
module IcdClientStorage {
  import opened MatterTypes

  type KeyHandle = nat

  /** ICDClientInfo: check-in identity, peer, monitored subject, start counter,
      and the handle of its key once SetKey has given it one. */
  datatype ClientInfo = ClientInfo(
    checkInNode: ScopedNodeId,
    peerNode: ScopedNodeId,
    monitoredSubject: NodeId,
    startIcdCounter: uint32,
    keyHandle: Option<KeyHandle>)

  datatype Store = Store(
    entries: map<ScopedNodeId, ClientInfo>,
    keys: map<KeyHandle, SymmetricKey>,
    nextHandle: KeyHandle)

  const EmptyStore: Store := Store(map[], map[], 0)

  /** Every handed-out handle is below `nextHandle`, every stored record is
      filed under its own peer and has a live key, and no two records share a key. */
  predicate Valid(st: Store) {
    (forall h :: h in st.keys ==> h < st.nextHandle) &&
    (forall p :: p in st.entries ==>
       st.entries[p].peerNode == p &&
       st.entries[p].keyHandle.Some? &&
       st.entries[p].keyHandle.value in st.keys) &&
    (forall p, q :: p in st.entries && q in st.entries && p != q ==>
       st.entries[p].keyHandle != st.entries[q].keyHandle)
  }

  /** Some stored record uses handle `h`. */
  predicate KeyInUse(st: Store, h: KeyHandle) {
    exists p :: p in st.entries && st.entries[p].keyHandle == Some(h)
  }

  /** The client info names a live key that no stored record uses. */
  predicate HasFreshLiveKey(st: Store, info: ClientInfo) {
    info.keyHandle.Some? && info.keyHandle.value in st.keys && !KeyInUse(st, info.keyHandle.value)
  }

  /** SetKey: on success the key goes under a handle no record uses yet, and the
      client info now names that handle; on failure nothing changes. */
  function SetKey(st: Store, info: ClientInfo, key: SymmetricKey, ok: bool): (r: (Store, ClientInfo))
    ensures Valid(st) ==> Valid(r.0)
    ensures r.0.entries == st.entries
    ensures !ok ==> r == (st, info)
    ensures ok ==> r.1.keyHandle.Some? && r.0.keys == st.keys[r.1.keyHandle.value := key]
    ensures ok && Valid(st) ==> r.1.keyHandle.value !in st.keys && !KeyInUse(st, r.1.keyHandle.value)
    ensures r.1 == info.(keyHandle := r.1.keyHandle)
  {
    if ok then
      var h := st.nextHandle;
      (st.(keys := st.keys[h := key], nextHandle := h + 1), info.(keyHandle := Some(h)))
    else
      (st, info)
  }

  /** StoreEntry: on success the record is filed under its peer, replacing any
      earlier record for that peer; on failure nothing changes. */
  function StoreEntry(st: Store, info: ClientInfo, ok: bool): (r: Store)
    ensures r.keys == st.keys && r.nextHandle == st.nextHandle
    ensures ok ==> r.entries == st.entries[info.peerNode := info]
    ensures !ok ==> r == st
    ensures Valid(st) && (ok ==> HasFreshLiveKey(st, info)) ==> Valid(r)
  {
    if ok then st.(entries := st.entries[info.peerNode := info]) else st
  }

  /** RemoveKey: drops the key the client info names, if it names one. */
  function RemoveKey(st: Store, info: ClientInfo): (r: Store)
    ensures r.entries == st.entries && r.nextHandle == st.nextHandle
    ensures info.keyHandle.Some? ==> r.keys == st.keys - {info.keyHandle.value}
    ensures info.keyHandle.None? ==> r == st
    ensures Valid(st) && (info.keyHandle.Some? ==> !KeyInUse(st, info.keyHandle.value)) ==> Valid(r)
  {
    match info.keyHandle
    case Some(h) => st.(keys := st.keys - {h})
    case None => st
  }

  /** DeleteEntry: removes the record filed under `id` together with its key;
      a missing record is not an error and changes nothing. */
  function DeleteEntry(st: Store, id: ScopedNodeId): (r: Store)
    ensures id !in r.entries
    ensures forall p :: p != id ==> (p in r.entries <==> p in st.entries)
    ensures forall p :: p != id && p in st.entries ==> r.entries[p] == st.entries[p]
    ensures id !in st.entries ==> r == st
    ensures Valid(st) && id in st.entries ==> st.entries[id].keyHandle.value !in r.keys
    ensures Valid(st) ==> Valid(r)
  {
    if id in st.entries then
      var handle := st.entries[id].keyHandle;
      var keys := if handle.Some? then st.keys - {handle.value} else st.keys;
      st.(entries := st.entries - {id}, keys := keys)
    else
      st
  }
}
