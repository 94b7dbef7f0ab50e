/**
  Registration as one transaction: authorise a reserved address, refresh a known pubkey
  (moving it when its authenticated network changed), or evict a stale address holder,
  resolve an address and join.
*/
module Registration {

  import opened Prelude
  import opened Ula
  import opened Identity
  import opened Roster

  datatype Outcome = Outcome(mesh: Mesh, result: Result<PeerEntry, Error>)

  function AuthorizeFixed(requested: Option<Option<Addr>>, claims: Option<Claims>): Option<Error> {
    if requested.None? then None
    else if requested.value.None? then Some(InvalidRequestedUla)
    else if !IsFixedInfra(requested.value.value) then None
    else if claims.Some? && requested.value.value in claims.value.requestedUlas then None
    else Some(Unauthorized)
  }

  /** Some peer holding this address. */
  ghost function Holder(m: Mesh, ula: Addr): (r: Option<PeerId>)
    ensures r.Some? ==> r.value in m.peers && m.peers[r.value].ula == ula
    ensures r.None? ==> forall p :: p in m.peers ==> m.peers[p].ula != ula
  {
    if p :| p in m.peers && m.peers[p].ula == ula then Some(p) else None
  }

  predicate Stale(entry: PeerEntry, now: Time, timeout: Time) { now - entry.lastHeartbeat > timeout }

  ghost function EvictStaleHolder(m: Mesh, requested: Option<Option<Addr>>, now: Time, timeout: Time): Mesh {
    if requested.None? || requested.value.None? then m
    else
      var h := Holder(m, requested.value.value);
      if h.Some? && Stale(m.peers[h.value], now, timeout) then ApplyLeft(m, h.value) else m
  }

  function ResolveUla(m: Mesh, network: Network, requested: Option<Option<Addr>>): (Mesh, Result<Addr, Error>) {
    if requested.Some? then
      if requested.value.None? || !requested.value.value.IsUla() then (m, Err(InvalidRequestedUla))
      else
        var a := requested.value.value;
        if a.s1 == HOST_ULA_SLOT && !IsFixedInfra(a) && a.Slot() != NetworkSlot(network) then
          (m, Err(UlaNetworkMismatch(a)))
        else if exists p :: p in m.peers && m.peers[p].ula == a then (m, Err(UlaConflict(a)))
        else (Bump(m, a.Slot(), a.Index()), Ok(a))
    else
      var (m', ula) := Allocate(m, network);
      (m', if ula.None? then Err(AllocationExhausted) else Ok(ula.value))
  }

  /** The entry after a re-register at an unchanged address. */
  function Restamped(p: PeerEntry, req: RegisterRequest, tags: seq<string>, observed: Option<string>, now: Time): PeerEntry {
    p.(tags := tags,
       hostedAppUlas := req.hostedAppUlas,
       softwareVersion := if req.softwareVersion.Some? then req.softwareVersion else p.softwareVersion,
       meshVersion := if req.meshVersion.Some? then req.meshVersion else p.meshVersion,
       lastHeartbeat := now,
       observedExternal := if observed.Some? then observed.value else p.observedExternal)
  }

  function RefreshExisting(m: Mesh, id: PeerId, req: RegisterRequest, claims: Option<Claims>, observed: Option<string>, now: Time): Outcome {
    if id !in m.peers then Outcome(m, Err(UnknownPeer))
    else
      var identity := Stamp(req, claims);
      var entry := Restamped(m.peers[id], req, identity.tags, observed, now);
      if claims.None? || identity.network == m.peers[id].network then
        Outcome(m.(peers := m.peers[id := entry]), Ok(entry))
      else
        var (m', ula) := Allocate(m, identity.network);
        if ula.None? then Outcome(m', Err(AllocationExhausted))
        else if m'.HeldByOther(ula.value, id) then Outcome(m', Err(UlaConflict(ula.value)))
        else
          var moved := entry.(network := identity.network, ula := ula.value, peerIndex := ula.value.Index());
          Outcome(m'.(peers := m'.peers[id := moved]), Ok(moved))
  }

  function Joining(req: RegisterRequest, identity: NodeIdentity, id: PeerId, ula: Addr): PeerJoined {
    PeerJoined(Some(id), req.pubkey, Some(ula), identity.network, identity.tags, req.hostedAppUlas,
               req.softwareVersion, req.meshVersion)
  }

  function Observe(o: Outcome, observed: Option<string>): Outcome {
    if o.result.Err? || observed.None? then o
    else
      var entry := o.result.value.(observedExternal := observed.value);
      Outcome(o.mesh.(peers := o.mesh.peers[entry.peerId := entry]), Ok(entry))
  }

  /** Resolve an address and join as `newId`. */
  function Admit(m: Mesh, req: RegisterRequest, claims: Option<Claims>, observed: Option<string>,
                 newId: PeerId, now: Time): Outcome {
    var identity := Stamp(req, claims);
    var (m', ula) := ResolveUla(m, identity.network, req.requestedUla);
    if ula.Err? then Outcome(m', Err(ula.error))
    else
      var (m'', r) := ApplyJoined(m', Joining(req, identity, newId, ula.value), now);
      Observe(Outcome(m'', r), observed)
  }

  ghost function FirstTime(m: Mesh, req: RegisterRequest, claims: Option<Claims>, observed: Option<string>,
                           newId: PeerId, now: Time, timeout: Time): Outcome {
    Admit(EvictStaleHolder(m, req.requestedUla, now, timeout), req, claims, observed, newId, now)
  }

  /** `newId` is the id a first-time register would mint. */
  ghost function Register(m: Mesh, req: RegisterRequest, claims: Option<Claims>, observed: Option<string>,
                          newId: PeerId, now: Time, timeout: Time): Outcome {
    var refused := AuthorizeFixed(req.requestedUla, claims);
    if refused.Some? then Outcome(m, Err(refused.value))
    else if |req.pubkey| != 32 then Outcome(m, Err(InvalidPubkey(|req.pubkey|)))
    else if req.pubkey in m.byPubkey then RefreshExisting(m, m.byPubkey[req.pubkey], req, claims, observed, now)
    else FirstTime(m, req, claims, observed, newId, now, timeout)
  }

  // ---------------------------------------------------------------- what a register keeps

  /** A peer the register may remove: it holds the requested address and went silent. */
  predicate Evictable(p: PeerEntry, req: RegisterRequest, now: Time, timeout: Time) {
    req.requestedUla == Some(Some(p.ula)) && Stale(p, now, timeout)
  }

  /** `m'` is `m` without its evictable peers. */
  ghost predicate Culled(m: Mesh, m': Mesh, req: RegisterRequest, now: Time, timeout: Time) {
    && (forall p :: p in m'.peers ==> p in m.peers && m'.peers[p] == m.peers[p])
    && (forall p :: p in m.peers ==> (p in m'.peers <==> !Evictable(m.peers[p], req, now, timeout)))
  }

  lemma EvictConsistent(m: Mesh, req: RegisterRequest, now: Time, timeout: Time)
    requires Consistent(m)
    ensures var m' := EvictStaleHolder(m, req.requestedUla, now, timeout);
            && Consistent(m') && m'.counters == m.counters && m'.issued == m.issued
            && Culled(m, m', req, now, timeout) && m'.byPubkey.Keys <= m.byPubkey.Keys
  {
    var r := req.requestedUla;
    if r.Some? && r.value.Some? && Holder(m, r.value.value).Some? {
      LeaveConsistent(m, Holder(m, r.value.value).value);
    }
  }

  lemma ResolveConsistent(m: Mesh, network: Network, requested: Option<Option<Addr>>)
    requires Consistent(m)
    ensures var (m', ula) := ResolveUla(m, network, requested);
            && Consistent(m') && m'.peers == m.peers && m'.byPubkey == m.byPubkey
            && (ula.Ok? ==> forall p :: p in m.peers ==> m.peers[p].ula != ula.value)
            && (ula.Err? && ula.error.UlaConflict? ==>
                  exists p :: p in m.peers && requested == Some(Some(m.peers[p].ula)))
  {
    hide Consistent, IsFixedInfra, NetworkSlot;
    if requested.None? {
      AllocationFresh(m, network);
    } else if ResolveUla(m, network, requested).1.Ok? {
      ConsistentKept(m, ResolveUla(m, network, requested).0);
    }
  }

  lemma ObserveConsistent(o: Outcome, observed: Option<string>)
    requires Consistent(o.mesh)
    requires o.result.Ok? ==> o.result.value.peerId in o.mesh.peers && o.mesh.peers[o.result.value.peerId] == o.result.value
    ensures Consistent(Observe(o, observed).mesh)
  {
    ConsistentKept(o.mesh, Observe(o, observed).mesh);
  }

  /** After the address is resolved, the join itself never finds a conflict. */
  lemma AdmitSafe(m: Mesh, req: RegisterRequest, claims: Option<Claims>, observed: Option<string>, newId: PeerId, now: Time)
    requires Consistent(m) && newId !in m.peers && req.pubkey !in m.byPubkey
    ensures var o := Admit(m, req, claims, observed, newId, now);
            && Consistent(o.mesh)
            && (o.result.Ok? ==>
                  && o.result.value.peerId == newId && o.result.value.pubkey == req.pubkey
                  && o.mesh.peers == m.peers[newId := o.result.value])
            && (o.result.Err? ==> o.mesh.peers == m.peers)
            && (o.result.Err? && o.result.error.UlaConflict? ==>
                  exists p :: p in m.peers && req.requestedUla == Some(Some(m.peers[p].ula)))
  {
    hide Consistent;
    var identity := Stamp(req, claims);
    var (m', ula) := ResolveUla(m, identity.network, req.requestedUla);
    ResolveConsistent(m, identity.network, req.requestedUla);
    if ula.Ok? {
      var e := Joining(req, identity, newId, ula.value);
      NewPeerJoins(m', e, now);
      ObserveConsistent(Outcome(ApplyJoined(m', e, now).0, ApplyJoined(m', e, now).1), observed);
    }
  }

  /**
    A first-time register keeps the mesh consistent and leaves every peer alone except a
    silent holder of the requested address.
  */
  lemma FirstTimeSafe(m: Mesh, req: RegisterRequest, claims: Option<Claims>, observed: Option<string>,
                      newId: PeerId, now: Time, timeout: Time)
    requires Consistent(m) && newId !in m.peers && req.pubkey !in m.byPubkey
    ensures Safe(m, req, FirstTime(m, req, claims, observed, newId, now, timeout), newId, now, timeout)
  {
    hide Consistent;
    EvictConsistent(m, req, now, timeout);
    var m1 := EvictStaleHolder(m, req.requestedUla, now, timeout);
    hide EvictStaleHolder, Culled, Safe;
    AdmitSafe(m1, req, claims, observed, newId, now);
    var o := Admit(m1, req, claims, observed, newId, now);
    hide Admit;
    AdmittedSafe(m, m1, req, o, newId, now, timeout);
  }

  lemma AdmittedSafe(m: Mesh, m1: Mesh, req: RegisterRequest, o: Outcome, newId: PeerId, now: Time, timeout: Time)
    requires Culled(m, m1, req, now, timeout) && newId !in m.peers && Consistent(o.mesh)
    requires o.result.Ok? ==>
               && o.result.value.peerId == newId && o.result.value.pubkey == req.pubkey
               && o.mesh.peers == m1.peers[newId := o.result.value]
    requires o.result.Err? ==> o.mesh.peers == m1.peers
    requires o.result.Err? && o.result.error.UlaConflict? ==>
               exists p :: p in m1.peers && req.requestedUla == Some(Some(m1.peers[p].ula))
    ensures Safe(m, req, o, newId, now, timeout)
  {
    hide Consistent;
    if o.result.Err? && o.result.error.UlaConflict? {
      var p :| p in m1.peers && req.requestedUla == Some(Some(m1.peers[p].ula));
      assert Pins(m.peers[p], req, now, timeout);
    }
  }

  /** What a register promises, whichever path it takes; `id` is the peer it is about. */
  ghost predicate Safe(m: Mesh, req: RegisterRequest, o: Outcome, id: PeerId, now: Time, timeout: Time) {
    && Consistent(o.mesh)
    && (o.result.Ok? ==>
          && o.result.value.peerId == id && o.result.value.pubkey == req.pubkey
          && id in o.mesh.peers && o.mesh.peers[id] == o.result.value)
    && (forall p :: p in m.peers && p != id && !Evictable(m.peers[p], req, now, timeout)
                    ==> p in o.mesh.peers && o.mesh.peers[p] == m.peers[p])
    && (forall p :: p in o.mesh.peers ==>
          (p == id && o.result.Ok?) || (p in m.peers && o.mesh.peers[p] == m.peers[p]))
    && (o.result.Err? && o.result.error.UlaConflict? ==>
          exists p :: p in m.peers && Pins(m.peers[p], req, now, timeout))
  }

  predicate Pins(p: PeerEntry, req: RegisterRequest, now: Time, timeout: Time) {
    req.requestedUla == Some(Some(p.ula)) && !Stale(p, now, timeout)
  }

  lemma ReplacedSafe(m: Mesh, m': Mesh, req: RegisterRequest, id: PeerId, entry: PeerEntry, now: Time, timeout: Time)
    requires Consistent(m') && id in m.peers && m'.peers == m.peers[id := entry]
    requires entry.peerId == id && entry.pubkey == req.pubkey
    ensures Safe(m, req, Outcome(m', Ok(entry)), id, now, timeout)
  {
    hide Consistent;
  }

  lemma RefreshSafe(m: Mesh, req: RegisterRequest, claims: Option<Claims>, observed: Option<string>, now: Time, timeout: Time)
    requires Consistent(m) && req.pubkey in m.byPubkey
    ensures var id := m.byPubkey[req.pubkey];
            Safe(m, req, RefreshExisting(m, id, req, claims, observed, now), id, now, timeout)
  {
    hide Consistent, Allocate, Stamp;
    var id, identity := m.byPubkey[req.pubkey], Stamp(req, claims);
    var o := RefreshExisting(m, id, req, claims, observed, now);
    KnownIsListed(m, req.pubkey);
    if claims.None? || identity.network == m.peers[id].network {
      ConsistentKept(m, o.mesh);
      ReplacedSafe(m, o.mesh, req, id, o.result.value, now, timeout);
    } else {
      AllocationFresh(m, identity.network);
      var (m', ula) := Allocate(m, identity.network);
      if ula.Some? {
        MoveConsistent(m', id, o.result.value);
        ReplacedSafe(m, o.mesh, req, id, o.result.value, now, timeout);
      }
    }
  }

  /** Moving one peer to an unused, covered address. */
  lemma MoveConsistent(m: Mesh, id: PeerId, moved: PeerEntry)
    requires Consistent(m) && id in m.peers
    requires moved.peerId == id && moved.pubkey == m.peers[id].pubkey
    requires forall p :: p in m.peers ==> m.peers[p].ula != moved.ula
    requires moved.ula.Index() <= m.Counter(moved.ula.Slot())
    ensures Consistent(m.(peers := m.peers[id := moved]))
  {
  }

  /**
    Every register keeps the mesh consistent, and its result is the entry stored under its
    pubkey: a known pubkey keeps its peer id, a new one gets `newId`. No path disturbs a peer
    other than the registering one and a silent holder of the address it asks for, and
    neither the join nor a network move ever runs into an address conflict.
  */
  lemma RegisterSafe(m: Mesh, req: RegisterRequest, claims: Option<Claims>, observed: Option<string>,
                     newId: PeerId, now: Time, timeout: Time)
    requires Consistent(m) && newId !in m.peers
    ensures var id := if req.pubkey in m.byPubkey then m.byPubkey[req.pubkey] else newId;
            Safe(m, req, Register(m, req, claims, observed, newId, now, timeout), id, now, timeout)
  {
    hide Consistent, FirstTime, RefreshExisting;
    if AuthorizeFixed(req.requestedUla, claims).Some? || |req.pubkey| != 32 {
      assert Register(m, req, claims, observed, newId, now, timeout).mesh == m;
    } else if req.pubkey in m.byPubkey {
      hide Safe;
      RefreshSafe(m, req, claims, observed, now, timeout);
    } else {
      hide Safe;
      FirstTimeSafe(m, req, claims, observed, newId, now, timeout);
    }
  }

  /**
    A re-register keeps the address, and only validated claims naming another network move
    the peer: then into that network's block, at an address never issued before.
  */
  lemma ReRegisterMovesOnlyByClaims(m: Mesh, req: RegisterRequest, claims: Option<Claims>, observed: Option<string>,
                                    newId: PeerId, now: Time, timeout: Time)
    requires Consistent(m) && req.pubkey in m.byPubkey
    requires Register(m, req, claims, observed, newId, now, timeout).result.Ok?
    ensures var before := m.peers[m.byPubkey[req.pubkey]];
            var o := Register(m, req, claims, observed, newId, now, timeout);
            var now' := o.result.value;
            && (now'.ula != before.ula <==> claims.Some? && claims.value.network != before.network)
            && (now'.ula == before.ula ==> now'.network == before.network && o.mesh.issued == m.issued)
            && (now'.ula != before.ula ==>
                  && now'.network == claims.value.network && now'.ula.Slot() == NetworkSlot(now'.network)
                  && now'.ula !in m.issued && o.mesh.issued == m.issued + [now'.ula])
  {
    AllocationFresh(m, Stamp(req, claims).network);
  }

  /**
    Whichever path a register takes, the stored entry shows the stamped identity and what the
    request reports; a version the request omits is never erased.
  */
  lemma RegisterStampsEntry(m: Mesh, req: RegisterRequest, claims: Option<Claims>, observed: Option<string>,
                            newId: PeerId, now: Time, timeout: Time)
    requires Consistent(m) && Register(m, req, claims, observed, newId, now, timeout).result.Ok?
    ensures var known, e := req.pubkey in m.byPubkey, Register(m, req, claims, observed, newId, now, timeout).result.value;
            && e.tags == Stamp(req, claims).tags && e.hostedAppUlas == req.hostedAppUlas && e.lastHeartbeat == now
            && e.peerIndex == (if known && e.ula == m.peers[m.byPubkey[req.pubkey]].ula
                               then m.peers[m.byPubkey[req.pubkey]].peerIndex else e.ula.Index())
            && e.network == (if known && claims.None? then m.peers[m.byPubkey[req.pubkey]].network
                             else Stamp(req, claims).network)
            && e.observedExternal == (if observed.Some? then observed.value
                                      else if known then m.peers[m.byPubkey[req.pubkey]].observedExternal else "")
            && e.softwareVersion == (if req.softwareVersion.Some? || !known then req.softwareVersion
                                     else m.peers[m.byPubkey[req.pubkey]].softwareVersion)
            && e.meshVersion == (if req.meshVersion.Some? || !known then req.meshVersion
                                 else m.peers[m.byPubkey[req.pubkey]].meshVersion)
  {
    hide Indexed, DistinctUlas, Covered, Stamp, EvictStaleHolder, ResolveUla;
    if req.pubkey in m.byPubkey {
      assert m.byPubkey[req.pubkey] in m.peers by { KnownIsListed(m, req.pubkey); }
      MovedElsewhere(m, req, claims);
    }
  }

  lemma KnownIsListed(m: Mesh, key: Key)
    requires Consistent(m) && key in m.byPubkey
    ensures var id := m.byPubkey[key]; id in m.peers && m.peers[id].peerId == id && m.peers[id].pubkey == key
  {
  }

  lemma MovedElsewhere(m: Mesh, req: RegisterRequest, claims: Option<Claims>)
    requires Consistent(m)
    ensures var ula := Allocate(m, Stamp(req, claims).network).1;
            ula.Some? ==> forall p :: p in m.peers ==> m.peers[p].ula != ula.value
  {
    AllocationFresh(m, Stamp(req, claims).network);
  }

  // ---------------------------------------------------------------- network blocks

  /** An address in the host range lies in the peer's own network block, unless it is a reserved one. */
  predicate OwnBlock(ula: Addr, network: Network) {
    ula.IsUla() && ula.s1 == HOST_ULA_SLOT && !IsFixedInfra(ula) ==> ula.Slot() == NetworkSlot(network)
  }

  ghost predicate InOwnBlocks(m: Mesh) {
    forall p :: p in m.peers ==> OwnBlock(m.peers[p].ula, m.peers[p].network)
  }

  lemma ResolvedInBlock(m: Mesh, network: Network, requested: Option<Option<Addr>>)
    ensures var ula := ResolveUla(m, network, requested).1;
            ula.Ok? ==>
              && OwnBlock(ula.value, network)
              && (requested.Some? ==> requested.value == Some(ula.value))
              && (requested.None? && IsFixedInfra(ula.value) ==> ula.value == LEGACY_INFRA && NetworkSlot(network) == 0)
  {
    if requested.None? && Allocate(m, network).1.Some? {
      IssuedIsFixedInfraOnlyOnce(NetworkSlot(network), Allocate(m, network).1.value.Index());
    }
  }

  lemma AdmittedAt(m: Mesh, req: RegisterRequest, claims: Option<Claims>, observed: Option<string>, newId: PeerId, now: Time)
    requires Admit(m, req, claims, observed, newId, now).result.Ok?
    ensures var e, identity := Admit(m, req, claims, observed, newId, now).result.value, Stamp(req, claims);
            e.network == identity.network && ResolveUla(m, identity.network, req.requestedUla).1 == Ok(e.ula)
  {
    hide ResolveUla, Stamp;
  }

  /**
    A node cannot register into another network's block: whichever path it takes, its address
    lies in the block of its own network. A reserved address goes only to a node whose claims
    list it, except the legacy one, which the unnamed network's allocator may hand out.
  */
  lemma RegisterStaysInBlock(m: Mesh, req: RegisterRequest, claims: Option<Claims>, observed: Option<string>,
                             newId: PeerId, now: Time, timeout: Time)
    requires Consistent(m) && InOwnBlocks(m) && newId !in m.peers
    ensures var o := Register(m, req, claims, observed, newId, now, timeout);
            && InOwnBlocks(o.mesh)
            && (o.result.Ok? && req.pubkey !in m.byPubkey && IsFixedInfra(o.result.value.ula) ==>
                  || (claims.Some? && o.result.value.ula in claims.value.requestedUlas)
                  || (req.requestedUla.None? && o.result.value.ula == LEGACY_INFRA))
  {
    hide Consistent, IsFixedInfra, NetworkSlot, Stamp, ResolveUla, EvictStaleHolder, Admit, RefreshExisting, Evictable, Pins;
    RegisterSafe(m, req, claims, observed, newId, now, timeout);
    if Register(m, req, claims, observed, newId, now, timeout).result.Ok? {
      RegisteredInBlock(m, req, claims, observed, newId, now, timeout);
    }
  }

  lemma RegisteredInBlock(m: Mesh, req: RegisterRequest, claims: Option<Claims>, observed: Option<string>,
                          newId: PeerId, now: Time, timeout: Time)
    requires Consistent(m) && InOwnBlocks(m) && Register(m, req, claims, observed, newId, now, timeout).result.Ok?
    ensures var e := Register(m, req, claims, observed, newId, now, timeout).result.value;
            && OwnBlock(e.ula, e.network)
            && (req.pubkey !in m.byPubkey && IsFixedInfra(e.ula) ==>
                  || (claims.Some? && e.ula in claims.value.requestedUlas)
                  || (req.requestedUla.None? && e.ula == LEGACY_INFRA))
  {
    hide Indexed, DistinctUlas, Covered, NetworkSlot, Stamp, ResolveUla, EvictStaleHolder, Admit;
    if req.pubkey in m.byPubkey {
      KnownIsListed(m, req.pubkey);
    } else {
      var m1 := EvictStaleHolder(m, req.requestedUla, now, timeout);
      AdmittedAt(m1, req, claims, observed, newId, now);
      ResolvedInBlock(m1, Stamp(req, claims).network, req.requestedUla);
    }
  }

  // ---------------------------------------------------------------- runs

  datatype Op =
    | OpRegister(req: RegisterRequest, claims: Option<Claims>, observed: Option<string>, newId: PeerId, now: Time)
    | OpHeartbeat(event: PeerHeartbeat, now: Time)
    | OpLeave(id: PeerId)
    | OpJoin(joined: PeerJoined, now: Time)
    | OpAllocate(network: Network)

  ghost function Step(m: Mesh, op: Op, timeout: Time): Mesh {
    match op
    case OpRegister(req, claims, observed, newId, now) => Register(m, req, claims, observed, newId, now, timeout).mesh
    case OpHeartbeat(event, now) => ApplyHeartbeat(m, event, now)
    case OpLeave(id) => ApplyLeft(m, id)
    case OpJoin(joined, now) => ApplyJoined(m, joined, now).0
    case OpAllocate(network) => Allocate(m, network).0
  }

  /** Minted ids are new, and the id and pubkey of a replayed join belong together. */
  predicate Enabled(m: Mesh, op: Op) {
    && (op.OpRegister? ==> op.newId !in m.peers)
    && (op.OpJoin? && op.joined.peerId.Some? ==> Paired(m, op.joined.peerId.value, op.joined.pubkey))
  }

  ghost predicate Reaches(m: Mesh, ops: seq<Op>, m': Mesh, timeout: Time)
    decreases |ops|
  {
    if ops == [] then m' == m
    else Enabled(m, ops[0]) && Reaches(Step(m, ops[0], timeout), ops[1..], m', timeout)
  }

  lemma StepConsistent(m: Mesh, op: Op, timeout: Time)
    requires Consistent(m) && Enabled(m, op)
    ensures Consistent(Step(m, op, timeout))
  {
    hide Consistent, Register, ApplyJoined, ApplyHeartbeat, ApplyLeft, Allocate;
    match op
    case OpRegister(req, claims, observed, newId, now) => RegisterSafe(m, req, claims, observed, newId, now, timeout);
    case OpHeartbeat(event, now) => HeartbeatConsistent(m, event, now);
    case OpLeave(id) => LeaveConsistent(m, id);
    case OpJoin(joined, now) => JoinConsistent(m, joined, now);
    case OpAllocate(network) => AllocationFresh(m, network);
  }

  /**
    Over any run of registers, heartbeats, leaves, replayed joins and bare allocations: roster
    and index stay inverse, no two peers share an address, and no counter lags behind an
    address in use or handed out.
  */
  lemma {:induction false} EveryRunConsistent(m: Mesh, ops: seq<Op>, m': Mesh, timeout: Time)
    requires Consistent(m) && Reaches(m, ops, m', timeout)
    ensures Consistent(m')
    decreases |ops|
  {
    if ops != [] {
      StepConsistent(m, ops[0], timeout);
      EveryRunConsistent(Step(m, ops[0], timeout), ops[1..], m', timeout);
    }
  }

  lemma AdmitKeepsCounters(m: Mesh, req: RegisterRequest, claims: Option<Claims>, observed: Option<string>,
                           newId: PeerId, now: Time, slot: u16)
    ensures m.Counter(slot) <= Admit(m, req, claims, observed, newId, now).mesh.Counter(slot)
  {
    hide Stamp, IsFixedInfra, NetworkSlot, ApplyJoined;
    var identity := Stamp(req, claims);
    var (m', ula) := ResolveUla(m, identity.network, req.requestedUla);
    assert m.Counter(slot) <= m'.Counter(slot);
    if ula.Ok? {
      JoinKeepsCounters(m', Joining(req, identity, newId, ula.value), now, slot);
    }
  }

  lemma JoinKeepsCounters(m: Mesh, e: PeerJoined, now: Time, slot: u16)
    ensures m.Counter(slot) <= ApplyJoined(m, e, now).0.Counter(slot)
  {
  }

  lemma RefreshKeepsCounters(m: Mesh, id: PeerId, req: RegisterRequest, claims: Option<Claims>, observed: Option<string>,
                             now: Time, slot: u16)
    ensures m.Counter(slot) <= RefreshExisting(m, id, req, claims, observed, now).mesh.Counter(slot)
  {
    hide Stamp, NetworkSlot;
  }

  lemma RegisterKeepsCounters(m: Mesh, req: RegisterRequest, claims: Option<Claims>, observed: Option<string>,
                              newId: PeerId, now: Time, timeout: Time, slot: u16)
    ensures m.Counter(slot) <= Register(m, req, claims, observed, newId, now, timeout).mesh.Counter(slot)
  {
    hide Admit, RefreshExisting, AuthorizeFixed;
    var m1 := EvictStaleHolder(m, req.requestedUla, now, timeout);
    assert m1.Counter(slot) == m.Counter(slot);
    AdmitKeepsCounters(m1, req, claims, observed, newId, now, slot);
    if req.pubkey in m.byPubkey {
      RefreshKeepsCounters(m, m.byPubkey[req.pubkey], req, claims, observed, now, slot);
    }
  }

  /** No operation turns a counter back. */
  lemma StepKeepsCounters(m: Mesh, op: Op, timeout: Time, slot: u16)
    ensures m.Counter(slot) <= Step(m, op, timeout).Counter(slot)
  {
    hide Register, NetworkSlot;
    if op.OpRegister? {
      RegisterKeepsCounters(m, op.req, op.claims, op.observed, op.newId, op.now, timeout, slot);
    }
  }

  lemma {:induction false} RunKeepsCounters(m: Mesh, ops: seq<Op>, m': Mesh, timeout: Time, slot: u16)
    requires Reaches(m, ops, m', timeout)
    ensures m.Counter(slot) <= m'.Counter(slot)
    decreases |ops|
  {
    hide Step;
    if ops != [] {
      StepKeepsCounters(m, ops[0], timeout, slot);
      RunKeepsCounters(Step(m, ops[0], timeout), ops[1..], m', timeout, slot);
    }
  }

  /**
    After any such run from an empty or a restored mesh, an allocated address is none that any
    peer ever had, at any point of the run, departed peers and addresses asked for or replayed
    included, and none that was ever issued, whichever networks share its block.
  */
  lemma AllocatedNeverBefore(m: Mesh, earlier: seq<Op>, mid: Mesh, later: seq<Op>, m': Mesh, timeout: Time, network: Network)
    requires Consistent(m) && Reaches(m, earlier, mid, timeout) && Reaches(mid, later, m', timeout)
    requires Allocate(m', network).1.Some?
    ensures var ula := Allocate(m', network).1.value;
            ula !in m'.issued && forall p :: p in mid.peers ==> mid.peers[p].ula != ula
  {
    EveryRunConsistent(m, earlier, mid, timeout);
    EveryRunConsistent(mid, later, m', timeout);
    AllocationFresh(m', network);
    RunKeepsCounters(mid, later, m', timeout, NetworkSlot(network));
    HeldIsCovered(mid);
    hide Consistent, Reaches, NetworkSlot;
    var ula := Allocate(m', network).1.value;
    assert ula == AddressFor(NetworkSlot(network), m'.Counter(NetworkSlot(network)) + 1);
  }

  lemma HeldIsCovered(m: Mesh)
    requires Consistent(m)
    ensures forall p :: p in m.peers ==> m.peers[p].ula.Index() <= m.Counter(m.peers[p].ula.Slot())
  {
  }

  /** Over any run of live operations every peer stays in its own network's block. */
  lemma {:induction false} EveryPeerInOwnBlock(m: Mesh, ops: seq<Op>, m': Mesh, timeout: Time)
    requires Consistent(m) && InOwnBlocks(m) && Reaches(m, ops, m', timeout)
    requires forall i :: 0 <= i < |ops| ==> !ops[i].OpJoin?
    ensures InOwnBlocks(m')
    decreases |ops|
  {
    hide Consistent, OwnBlock, Register;
    if ops != [] {
      StepConsistent(m, ops[0], timeout);
      if ops[0].OpRegister? {
        var op := ops[0];
        RegisterStaysInBlock(m, op.req, op.claims, op.observed, op.newId, op.now, timeout);
      }
      EveryPeerInOwnBlock(Step(m, ops[0], timeout), ops[1..], m', timeout);
    }
  }
}
