/**
  When a register succeeds and with which error it fails, told from the request, the claims
  and the roster before the call.
*/
module RegisterOutcome {

  import opened Prelude
  import opened Ula
  import opened Identity
  import opened Roster
  import opened Registration

  /** Inside `fc00::/7`. */
  predicate UniqueLocal(a: Addr) { 0xfc00 <= a.s0 <= 0xfdff }

  /** Index 0 of a host block, or the legacy registry address. */
  predicate Reserved(a: Addr) {
    || (UniqueLocal(a) && a.s1 == 0x1f00 && a.s3 == 0)
    || a == Addr(0xfd5a, 0x1f00, 0, 3, 0, 0, 0, 1)
  }

  predicate Listed(claims: Option<Claims>, a: Addr) {
    claims.Some? && a in claims.value.requestedUlas
  }

  /** The wish, if there is one, is an address, and a reserved one is listed in the claims. */
  predicate Authorised(wish: Option<Option<Addr>>, claims: Option<Claims>) {
    wish.Some? ==> wish.value.Some? && (Reserved(wish.value.value) ==> Listed(claims, wish.value.value))
  }

  /** In the host range an address that is not reserved must lie in the block of the network. */
  predicate InBlock(a: Addr, network: Network) {
    a.s1 == 0x1f00 && !Reserved(a) ==> a.s2 == NetworkSlot(network)
  }

  /** A peer heard from within the timeout has the address. */
  predicate HeldByLive(m: Mesh, a: Addr, now: Time, timeout: Time) {
    exists p :: p in m.peers && m.peers[p].ula == a && now - m.peers[p].lastHeartbeat <= timeout
  }

  predicate Held(m: Mesh, a: Addr) {
    exists p :: p in m.peers && m.peers[p].ula == a
  }

  function NetworkOf(req: RegisterRequest, claims: Option<Claims>): Network {
    if claims.Some? then claims.value.network else req.network
  }

  /** The claims and the key pass, so the address decides. */
  predicate Eligible(req: RegisterRequest, claims: Option<Claims>) {
    Authorised(req.requestedUla, claims) && |req.pubkey| == 32
  }

  lemma ReservedIsFixed(a: Addr)
    ensures IsFixedInfra(a) <==> Reserved(a)
    ensures a.IsUla() <==> UniqueLocal(a)
  {
  }

  lemma AuthorisedExactly(wish: Option<Option<Addr>>, claims: Option<Claims>)
    ensures AuthorizeFixed(wish, claims) == if Authorised(wish, claims) then None
                                            else if wish.value.None? then Some(InvalidRequestedUla) else Some(Unauthorized)
  {
    if wish.Some? && wish.value.Some? {
      ReservedIsFixed(wish.value.value);
    }
  }

  /** Resolving an address: every outcome with its condition. */
  lemma ResolveExactly(m: Mesh, network: Network, wish: Option<Option<Addr>>)
    requires wish.Some? ==> wish.value.Some?
    ensures wish.None? ==>
              var slot := NetworkSlot(network);
              ResolveUla(m, network, wish).1
              == if m.Counter(slot) == 65535 then Err(AllocationExhausted)
                 else Ok(Addr(0xfd5a, 0x1f00, slot, m.Counter(slot) + 1, 0, 0, 0, 1))
    ensures wish.Some? ==>
              var a := wish.value.value;
              ResolveUla(m, network, wish).1
              == if !UniqueLocal(a) then Err(InvalidRequestedUla)
                 else if !InBlock(a, network) then Err(UlaNetworkMismatch(a))
                 else if Held(m, a) then Err(UlaConflict(a))
                 else Ok(a)
  {
    hide IsFixedInfra, NetworkSlot, Reserved;
    if wish.Some? {
      ReservedIsFixed(wish.value.value);
    }
  }

  /** After the stale holder is gone, an address is held exactly if a live peer has it. */
  lemma HeldAfterEviction(m: Mesh, req: RegisterRequest, a: Addr, now: Time, timeout: Time)
    requires Consistent(m) && req.requestedUla == Some(Some(a))
    ensures Held(EvictStaleHolder(m, req.requestedUla, now, timeout), a) <==> HeldByLive(m, a, now, timeout)
  {
    hide Consistent, EvictStaleHolder;
    EvictConsistent(m, req, now, timeout);
    var m1 := EvictStaleHolder(m, req.requestedUla, now, timeout);
    if p :| p in m1.peers && m1.peers[p].ula == a {
      assert p in m.peers && m.peers[p] == m1.peers[p] && !Evictable(m.peers[p], req, now, timeout);
    }
    if p :| p in m.peers && m.peers[p].ula == a && now - m.peers[p].lastHeartbeat <= timeout {
      assert !Evictable(m.peers[p], req, now, timeout);
      assert p in m1.peers && m1.peers[p] == m.peers[p];
    }
  }

  /** The verdict of resolving, in the mesh the eviction leaves. */
  lemma AdmitFollowsResolve(m: Mesh, req: RegisterRequest, claims: Option<Claims>, observed: Option<string>, newId: PeerId, now: Time)
    requires Consistent(m) && newId !in m.peers && req.pubkey !in m.byPubkey
    ensures var r, ula := Admit(m, req, claims, observed, newId, now).result,
                          ResolveUla(m, Stamp(req, claims).network, req.requestedUla).1;
            if ula.Err? then r == Err(ula.error) else r.Ok? && r.value.ula == ula.value
  {
    hide Consistent, Stamp, ResolveUla;
    var identity := Stamp(req, claims);
    var (m', ula) := ResolveUla(m, identity.network, req.requestedUla);
    ResolveConsistent(m, identity.network, req.requestedUla);
    if ula.Ok? {
      NewPeerJoins(m', Joining(req, identity, newId, ula.value), now);
    }
  }

  /** What a first-time register answers, in the order the code decides. */
  function Answer(m: Mesh, req: RegisterRequest, claims: Option<Claims>, now: Time, timeout: Time): Result<Addr, Error> {
    var network := NetworkOf(req, claims);
    var slot := NetworkSlot(network);
    if !Authorised(req.requestedUla, claims) then
      Err(if req.requestedUla.value.None? then InvalidRequestedUla else Unauthorized)
    else if |req.pubkey| != 32 then Err(InvalidPubkey(|req.pubkey|))
    else if req.requestedUla.None? then
      if m.Counter(slot) == 65535 then Err(AllocationExhausted)
      else Ok(Addr(0xfd5a, 0x1f00, slot, m.Counter(slot) + 1, 0, 0, 0, 1))
    else
      var a := req.requestedUla.value.value;
      if !UniqueLocal(a) then Err(InvalidRequestedUla)
      else if !InBlock(a, network) then Err(UlaNetworkMismatch(a))
      else if HeldByLive(m, a, now, timeout) then Err(UlaConflict(a))
      else Ok(a)
  }

  lemma FirstTimeAnswer(m: Mesh, req: RegisterRequest, claims: Option<Claims>, observed: Option<string>,
                        newId: PeerId, now: Time, timeout: Time)
    requires Consistent(m) && newId !in m.peers && req.pubkey !in m.byPubkey
    ensures var r, answer := Register(m, req, claims, observed, newId, now, timeout).result, Answer(m, req, claims, now, timeout);
            if answer.Err? then r == Err(answer.error) else r.Ok? && r.value.ula == answer.value
  {
    hide Consistent, Admit, ResolveUla, AuthorizeFixed, Authorised, NetworkSlot, InBlock, UniqueLocal, Held, HeldByLive, EvictStaleHolder;
    AuthorisedExactly(req.requestedUla, claims);
    if Authorised(req.requestedUla, claims) && |req.pubkey| == 32 {
      AuthorisedWish(req.requestedUla, claims);
      var m1 := EvictStaleHolder(m, req.requestedUla, now, timeout);
      EvictConsistent(m, req, now, timeout);
      EvictedOthers(m, req, newId, now, timeout);
      AdmitFollowsResolve(m1, req, claims, observed, newId, now);
      ResolveExactly(m1, Stamp(req, claims).network, req.requestedUla);
      if req.requestedUla.Some? {
        HeldAfterEviction(m, req, req.requestedUla.value.value, now, timeout);
      }
    }
  }

  lemma AuthorisedWish(wish: Option<Option<Addr>>, claims: Option<Claims>)
    requires Authorised(wish, claims)
    ensures wish.Some? ==> wish.value.Some?
  {
  }

  lemma EvictedOthers(m: Mesh, req: RegisterRequest, newId: PeerId, now: Time, timeout: Time)
    requires Consistent(m) && newId !in m.peers && req.pubkey !in m.byPubkey
    ensures var m1 := EvictStaleHolder(m, req.requestedUla, now, timeout);
            newId !in m1.peers && req.pubkey !in m1.byPubkey
  {
  }

  /**
    A first-time register succeeds if and only if its wish is authorised, its key has 32 bytes,
    and either it wishes for nothing and its network's block is not used up, or it wishes for a
    unique local address, in the host range only one of its own block or a reserved one, that
    no live peer has. It then gets the address it wished for, or the next one of its block.
  */
  lemma FirstTimeSucceedsExactly(m: Mesh, req: RegisterRequest, claims: Option<Claims>, observed: Option<string>,
                                 newId: PeerId, now: Time, timeout: Time)
    requires Consistent(m) && newId !in m.peers && req.pubkey !in m.byPubkey
    ensures var r, network := Register(m, req, claims, observed, newId, now, timeout).result, NetworkOf(req, claims);
            && (r.Ok? <==>
                  && Eligible(req, claims)
                  && (req.requestedUla.None? ==> m.Counter(NetworkSlot(network)) < 65535)
                  && (req.requestedUla.Some? ==>
                        var a := req.requestedUla.value.value;
                        UniqueLocal(a) && InBlock(a, network) && !HeldByLive(m, a, now, timeout)))
            && (r.Ok? && req.requestedUla.Some? ==> req.requestedUla.value == Some(r.value.ula))
            && (r.Ok? && req.requestedUla.None? ==>
                  r.value.ula == Addr(0xfd5a, 0x1f00, NetworkSlot(network), m.Counter(NetworkSlot(network)) + 1, 0, 0, 0, 1))
  {
    hide Consistent, Register, NetworkSlot, Reserved, HeldByLive;
    FirstTimeAnswer(m, req, claims, observed, newId, now, timeout);
  }

  /** Each error of a first-time register has its own condition, and no other error occurs. */
  lemma FirstTimeFailsExactly(m: Mesh, req: RegisterRequest, claims: Option<Claims>, observed: Option<string>,
                              newId: PeerId, now: Time, timeout: Time)
    requires Consistent(m) && newId !in m.peers && req.pubkey !in m.byPubkey
    ensures var r, wish := Register(m, req, claims, observed, newId, now, timeout).result, req.requestedUla;
            var network := NetworkOf(req, claims);
            var named := Eligible(req, claims) && wish.Some?;
            && (r == Err(Unauthorized) <==>
                  wish.Some? && wish.value.Some? && Reserved(wish.value.value) && !Listed(claims, wish.value.value))
            && (r == Err(InvalidPubkey(|req.pubkey|)) <==> Authorised(wish, claims) && |req.pubkey| != 32)
            && (r == Err(InvalidRequestedUla) <==> wish == Some(None) || (named && !UniqueLocal(wish.value.value)))
            && (r == Err(AllocationExhausted) <==>
                  Eligible(req, claims) && wish.None? && m.Counter(NetworkSlot(network)) == 65535)
            && (named ==>
                  var a := wish.value.value;
                  && (r == Err(UlaNetworkMismatch(a)) <==> UniqueLocal(a) && !InBlock(a, network))
                  && (r == Err(UlaConflict(a)) <==>
                        UniqueLocal(a) && InBlock(a, network) && HeldByLive(m, a, now, timeout)))
            && (r.Err? ==>
                  || r.error == Unauthorized || r.error == InvalidPubkey(|req.pubkey|) || r.error == InvalidRequestedUla
                  || r.error == AllocationExhausted
                  || (named && (r.error == UlaNetworkMismatch(wish.value.value) || r.error == UlaConflict(wish.value.value))))
  {
    hide Consistent, Register, NetworkSlot, Reserved, HeldByLive, InBlock, UniqueLocal;
    FirstTimeAnswer(m, req, claims, observed, newId, now, timeout);
  }

  /**
    A known pubkey registers again if and only if its wish is authorised, its key has 32 bytes,
    and it stays in its network or the block of the network its claims name is not used up.
  */
  lemma ReRegisterSucceedsExactly(m: Mesh, req: RegisterRequest, claims: Option<Claims>, observed: Option<string>,
                                  newId: PeerId, now: Time, timeout: Time)
    requires Consistent(m) && req.pubkey in m.byPubkey
    ensures var r, before := Register(m, req, claims, observed, newId, now, timeout).result, m.peers[m.byPubkey[req.pubkey]];
            && (r.Ok? <==>
                  && Eligible(req, claims)
                  && (claims.Some? && claims.value.network != before.network ==>
                        m.Counter(NetworkSlot(claims.value.network)) < 65535))
            && (r.Ok? ==> r.value.peerId == before.peerId && r.value.pubkey == before.pubkey)
            && (r.Err? ==> r.error == if Eligible(req, claims) then AllocationExhausted
                                      else if Authorised(req.requestedUla, claims) then InvalidPubkey(|req.pubkey|)
                                      else if req.requestedUla == Some(None) then InvalidRequestedUla else Unauthorized)
  {
    hide Consistent, NetworkSlot, AuthorizeFixed, MergedTags, Reserved;
    KnownIsListed(m, req.pubkey);
    AuthorisedExactly(req.requestedUla, claims);
    if claims.Some? {
      AllocationFresh(m, claims.value.network);
    }
  }
}
