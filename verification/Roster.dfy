/**
  The peer roster, its pubkey index and the per-network address counters, as changed by the
  apply seam (join, heartbeat, leave) and by registration.
*/
module Roster {

  import opened Prelude
  import opened Ula
  import opened UlaAllocatorModel

  /** A coordinator-assigned UUID. */
  type PeerId = nat

  type Key = Bytes

  datatype PeerEntry = PeerEntry(
    peerId: PeerId,
    pubkey: Key,
    ula: Addr,
    peerIndex: u16,
    network: Network,
    tags: seq<string>,
    hostedAppUlas: seq<string>,
    lastHeartbeat: Time,
    observedExternal: string,
    softwareVersion: Option<string>,
    meshVersion: Option<string>)

  /** `peerId` and `ula` are text on the wire; `None` is text that does not parse. */
  datatype PeerJoined = PeerJoined(
    peerId: Option<PeerId>,
    pubkey: Key,
    ula: Option<Addr>,
    network: Network,
    tags: seq<string>,
    hostedAppUlas: seq<string>,
    softwareVersion: Option<string>,
    meshVersion: Option<string>)

  datatype PeerHeartbeat = PeerHeartbeat(
    peerId: Option<PeerId>,
    observedExternal: string,
    hostedAppUlas: seq<string>,
    softwareVersion: Option<string>,
    meshVersion: Option<string>)

  datatype Error =
    | InvalidPeerId
    | UnknownPeer
    | InvalidPubkey(length: nat)
    | InvalidRequestedUla
    | AllocationExhausted
    | Unauthorized
    | UlaConflict(ula: Addr)
    | UlaNetworkMismatch(ula: Addr)

  /** `issued` is the model's record of every address the allocator has handed out. */
  datatype Mesh = Mesh(
    peers: map<PeerId, PeerEntry>,
    byPubkey: map<Key, PeerId>,
    counters: map<u16, u16>,
    issued: seq<Addr>)
  {
    function Counter(slot: u16): u16 {
      if slot in counters then counters[slot] else 0
    }

    predicate HeldByOther(ula: Addr, id: PeerId) {
      exists p :: p in peers && peers[p].ula == ula && peers[p].peerId != id
    }
  }

  const EMPTY_MESH := Mesh(map[], map[], map[], [])

  // ---------------------------------------------------------------- the apply seam

  function Bump(m: Mesh, slot: u16, idx: u16): Mesh {
    m.(counters := m.counters[slot := BumpAtomic(m.Counter(slot), idx)])
  }

  function Allocate(m: Mesh, network: Network): (Mesh, Option<Addr>) {
    var slot := NetworkSlot(network);
    var (counter, idx) := AllocateAtomic(m.Counter(slot));
    if idx.None? then (m.(counters := m.counters[slot := counter]), None)
    else
      var ula := AddressFor(slot, idx.value);
      (m.(counters := m.counters[slot := counter], issued := m.issued + [ula]), Some(ula))
  }

  function EntryOf(e: PeerJoined, now: Time): PeerEntry
    requires e.peerId.Some? && e.ula.Some?
  {
    PeerEntry(e.peerId.value, e.pubkey, e.ula.value, e.ula.value.Index(), e.network, e.tags,
              e.hostedAppUlas, now, "", e.softwareVersion, e.meshVersion)
  }

  function ApplyJoined(m: Mesh, e: PeerJoined, now: Time): (Mesh, Result<PeerEntry, Error>) {
    if e.peerId.None? || e.ula.None? then (m, Err(InvalidPeerId))
    else if m.HeldByOther(e.ula.value, e.peerId.value) then (m, Err(UlaConflict(e.ula.value)))
    else
      var entry := EntryOf(e, now);
      var joined := m.(peers := m.peers[entry.peerId := entry], byPubkey := m.byPubkey[e.pubkey := entry.peerId]);
      (Bump(joined, entry.ula.Slot(), entry.peerIndex), Ok(entry))
  }

  function Refreshed(p: PeerEntry, e: PeerHeartbeat, now: Time): PeerEntry {
    p.(lastHeartbeat := now,
         observedExternal := e.observedExternal,
         hostedAppUlas := e.hostedAppUlas,
         softwareVersion := if e.softwareVersion.Some? then e.softwareVersion else p.softwareVersion,
         meshVersion := if e.meshVersion.Some? then e.meshVersion else p.meshVersion)
  }

  function ApplyHeartbeat(m: Mesh, e: PeerHeartbeat, now: Time): Mesh {
    if e.peerId.None? || e.peerId.value !in m.peers then m
    else m.(peers := m.peers[e.peerId.value := Refreshed(m.peers[e.peerId.value], e, now)])
  }

  function ApplyLeft(m: Mesh, id: PeerId): Mesh {
    if id !in m.peers then m
    else m.(peers := m.peers - {id}, byPubkey := m.byPubkey - {m.peers[id].pubkey})
  }

  // ---------------------------------------------------------------- consistency

  /** Roster and pubkey index are inverse to each other. */
  ghost predicate Indexed(m: Mesh) {
    && (forall p :: p in m.peers ==> m.peers[p].pubkey in m.byPubkey && m.byPubkey[m.peers[p].pubkey] == p)
    && (forall k :: k in m.byPubkey ==> m.byPubkey[k] in m.peers && m.peers[m.byPubkey[k]].pubkey == k)
  }

  ghost predicate DistinctUlas(m: Mesh) {
    forall p, q :: p in m.peers && q in m.peers && p != q ==> m.peers[p].ula != m.peers[q].ula
  }

  /** No counter lags behind an address that was handed out or is in use. */
  ghost predicate Covered(m: Mesh) {
    && (forall p :: p in m.peers ==> m.peers[p].ula.Index() <= m.Counter(m.peers[p].ula.Slot()))
    && (forall i :: 0 <= i < |m.issued| ==> m.issued[i].Index() <= m.Counter(m.issued[i].Slot()))
    && (forall i, j :: 0 <= i < j < |m.issued| ==> m.issued[i] != m.issued[j])
  }

  ghost predicate Consistent(m: Mesh) {
    && (forall p :: p in m.peers ==> m.peers[p].peerId == p)
    && Indexed(m) && DistinctUlas(m) && Covered(m)
  }

  /** The join's id and pubkey are both new, or already belong together. */
  predicate Paired(m: Mesh, id: PeerId, pubkey: Key) {
    if id in m.peers then m.peers[id].pubkey == pubkey else pubkey !in m.byPubkey
  }

  /** A join keeps index and roster inverse exactly when its id and pubkey are paired. */
  lemma JoinKeepsIndexExactlyWhenPaired(m: Mesh, e: PeerJoined, now: Time)
    requires Consistent(m) && ApplyJoined(m, e, now).1.Ok?
    ensures Indexed(ApplyJoined(m, e, now).0) <==> Paired(m, e.peerId.value, e.pubkey)
  {
    var m', id := ApplyJoined(m, e, now).0, e.peerId.value;
    assert m'.byPubkey[e.pubkey] == id && m'.peers[id].pubkey == e.pubkey;
    if id in m.peers && m.peers[id].pubkey != e.pubkey {
      assert m'.byPubkey[m.peers[id].pubkey] == id;
    }
    if id !in m.peers && e.pubkey in m.byPubkey {
      assert m'.peers[m.byPubkey[e.pubkey]].pubkey == e.pubkey;
    }
  }

  lemma JoinCovered(m: Mesh, e: PeerJoined, now: Time)
    requires Covered(m)
    ensures Covered(ApplyJoined(m, e, now).0)
  {
    var m' := ApplyJoined(m, e, now).0;
    assert forall slot :: m.Counter(slot) <= m'.Counter(slot);
  }

  lemma JoinConsistent(m: Mesh, e: PeerJoined, now: Time)
    requires Consistent(m)
    requires e.peerId.Some? ==> Paired(m, e.peerId.value, e.pubkey)
    ensures Consistent(ApplyJoined(m, e, now).0)
  {
    hide Covered;
    if ApplyJoined(m, e, now).1.Ok? {
      assert Indexed(ApplyJoined(m, e, now).0) by {
        JoinKeepsIndexExactlyWhenPaired(m, e, now);
      }
      hide Indexed, Paired;
      JoinCovered(m, e, now);
    }
  }

  /** Changes that move no id, key or address, and turn no counter back, keep consistency. */
  lemma ConsistentKept(m: Mesh, m': Mesh)
    requires Consistent(m)
    requires m'.peers.Keys == m.peers.Keys && m'.byPubkey == m.byPubkey && m'.issued == m.issued
    requires forall p :: p in m.peers ==> SameCore(m.peers[p], m'.peers[p])
    requires forall slot :: m.Counter(slot) <= m'.Counter(slot)
    ensures Consistent(m')
  {
  }

  predicate SameCore(a: PeerEntry, b: PeerEntry) {
    a.peerId == b.peerId && a.pubkey == b.pubkey && a.ula == b.ula
  }

  lemma LeaveConsistent(m: Mesh, id: PeerId)
    requires Consistent(m)
    ensures Consistent(ApplyLeft(m, id))
  {
  }

  lemma HeartbeatConsistent(m: Mesh, e: PeerHeartbeat, now: Time)
    requires Consistent(m)
    ensures Consistent(ApplyHeartbeat(m, e, now))
  {
    ConsistentKept(m, ApplyHeartbeat(m, e, now));
  }

  /** A heartbeat changes only what a peer reports about itself, and never forgets a version. */
  lemma HeartbeatKeepsIdentity(m: Mesh, e: PeerHeartbeat, now: Time, p: PeerId)
    requires p in m.peers
    ensures var m' := ApplyHeartbeat(m, e, now);
            && m'.peers.Keys == m.peers.Keys && m'.byPubkey == m.byPubkey && m'.counters == m.counters
            && (Some(p) != e.peerId ==> m'.peers[p] == m.peers[p])
            && var a, b := m.peers[p], m'.peers[p];
               && SameCore(a, b) && a.network == b.network && a.tags == b.tags && a.peerIndex == b.peerIndex
               && (Some(p) == e.peerId ==>
                     b.lastHeartbeat == now && b.hostedAppUlas == e.hostedAppUlas && b.observedExternal == e.observedExternal)
               && b.softwareVersion == (if Some(p) == e.peerId && e.softwareVersion.Some? then e.softwareVersion else a.softwareVersion)
               && b.meshVersion == (if Some(p) == e.peerId && e.meshVersion.Some? then e.meshVersion else a.meshVersion)
  {
  }

  /** A join of a new peer at an unused address always succeeds. */
  lemma NewPeerJoins(m: Mesh, e: PeerJoined, now: Time)
    requires Consistent(m) && e.peerId.Some? && e.ula.Some?
    requires e.peerId.value !in m.peers && e.pubkey !in m.byPubkey
    requires forall p :: p in m.peers ==> m.peers[p].ula != e.ula.value
    ensures var (m', r) := ApplyJoined(m, e, now);
            && r == Ok(EntryOf(e, now)) && Consistent(m')
            && m'.peers == m.peers[e.peerId.value := r.value]
  {
    JoinConsistent(m, e, now);
  }

  /** An allocation is fresh: unlike every address in the roster and every one issued before. */
  lemma AllocationFresh(m: Mesh, network: Network)
    requires Consistent(m)
    ensures var (m', ula) := Allocate(m, network);
            && Consistent(m') && m'.peers == m.peers && m'.byPubkey == m.byPubkey
            && (ula.None? <==> m.Counter(NetworkSlot(network)) == MAX_INDEX)
            && (ula.Some? ==>
                  && ula.value !in m.issued && m'.issued == m.issued + [ula.value]
                  && (forall p :: p in m.peers ==> m.peers[p].ula != ula.value)
                  && ula.value.Index() == m'.Counter(ula.value.Slot()))
  {
    var (m', ula) := Allocate(m, network);
    assert forall slot :: m.Counter(slot) <= m'.Counter(slot);
  }

  /**
    A join is refused as malformed if and only if its id or address does not parse, as a
    conflict if and only if another peer has its address, and applied otherwise: the entry is
    what the event says, at the index its address encodes, and no other peer changes.
  */
  lemma JoinExactly(m: Mesh, e: PeerJoined, now: Time)
    requires forall p :: p in m.peers ==> m.peers[p].peerId == p
    ensures var (m', r) := ApplyJoined(m, e, now);
            && (r == Err(InvalidPeerId) <==> e.peerId.None? || e.ula.None?)
            && (e.peerId.Some? && e.ula.Some? ==>
                  var taken := exists p :: p in m.peers && p != e.peerId.value && m.peers[p].ula == e.ula.value;
                  && (r == Err(UlaConflict(e.ula.value)) <==> taken) && (r.Ok? <==> !taken))
            && (r.Err? ==> m' == m)
            && (r.Ok? ==>
                  && m'.peers == m.peers[e.peerId.value := r.value] && m'.byPubkey == m.byPubkey[e.pubkey := e.peerId.value]
                  && r.value.peerId == e.peerId.value && r.value.pubkey == e.pubkey && r.value.ula == e.ula.value
                  && r.value.peerIndex == e.ula.value.s3 && r.value.network == e.network && r.value.tags == e.tags
                  && r.value.hostedAppUlas == e.hostedAppUlas && r.value.softwareVersion == e.softwareVersion
                  && r.value.meshVersion == e.meshVersion && r.value.lastHeartbeat == now && r.value.observedExternal == "")
  {
    if e.peerId.Some? && e.ula.Some? {
      assert m.HeldByOther(e.ula.value, e.peerId.value)
             <==> exists p :: p in m.peers && p != e.peerId.value && m.peers[p].ula == e.ula.value;
    }
  }

  /** A leave removes one peer and its key, and nothing if the peer is unknown. */
  lemma LeaveExactly(m: Mesh, id: PeerId, p: PeerId, k: Key)
    requires Consistent(m)
    ensures var m' := ApplyLeft(m, id);
            && (p in m'.peers <==> p in m.peers && p != id) && (p in m'.peers ==> m'.peers[p] == m.peers[p])
            && (k in m'.byPubkey <==> k in m.byPubkey && m.byPubkey[k] != id)
            && (k in m'.byPubkey ==> m'.byPubkey[k] == m.byPubkey[k])
            && m'.counters == m.counters && m'.issued == m.issued
  {
    hide DistinctUlas, Covered;
  }
}
