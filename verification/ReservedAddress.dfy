/** How the allocator comes to hand out the one reserved address that lies in its range. */
module ReservedAddress {

  import opened Prelude
  import opened Ula
  import opened Identity
  import opened Roster
  import opened Registration

  /** An allocation yields a reserved address exactly for the unnamed network when its counter stands at two. */
  lemma AllocatesReservedExactly(m: Mesh, network: Network)
    ensures Allocate(m, network).1.Some? && IsFixedInfra(Allocate(m, network).1.value)
            <==> network == [] && m.Counter(0) == 2
  {
    hide IsFixedInfra;
    var ula := Allocate(m, network).1;
    if ula.Some? {
      IssuedIsFixedInfraOnlyOnce(NetworkSlot(network), ula.value.Index());
    }
  }

  /** A new node without claims and without a wish, in the unnamed network. */
  predicate Plain(m: Mesh, req: RegisterRequest, newId: PeerId) {
    && |req.pubkey| == 32 && req.pubkey !in m.byPubkey && newId !in m.peers
    && req.network == [] && req.requestedUla.None?
  }

  /** It gets the next index of block 0. */
  lemma PlainRegister(m: Mesh, req: RegisterRequest, observed: Option<string>, newId: PeerId, now: Time, timeout: Time)
    requires Consistent(m) && Plain(m, req, newId) && m.Counter(0) < MAX_INDEX
    ensures var o := Register(m, req, None, observed, newId, now, timeout);
            && o.result.Ok? && o.result.value.ula == AddressFor(0, m.Counter(0) + 1)
            && Consistent(o.mesh) && o.mesh.Counter(0) == m.Counter(0) + 1
            && o.mesh.byPubkey == m.byPubkey[req.pubkey := newId] && o.mesh.peers.Keys == m.peers.Keys + {newId}
  {
    hide Consistent, IsFixedInfra;
    AllocationFresh(m, []);
    RegisterSafe(m, req, None, observed, newId, now, timeout);
    var (m', ula) := Allocate(m, []);
    NewPeerJoins(m', Joining(req, Stamp(req, None), newId, ula.value), now);
  }

  /** So the third of three new nodes without claims receives the legacy registry address. */
  lemma ThirdPlainNodeGetsLegacyAddress(a: RegisterRequest, b: RegisterRequest, c: RegisterRequest, now: Time, timeout: Time)
    returns (ops: seq<Op>, m: Mesh)
    requires Plain(EMPTY_MESH, a, 1) && Plain(EMPTY_MESH, b, 2) && Plain(EMPTY_MESH, c, 3)
    requires a.pubkey != b.pubkey && a.pubkey != c.pubkey && b.pubkey != c.pubkey
    ensures Reaches(EMPTY_MESH, ops, m, timeout)
    ensures var r := Register(m, c, None, None, 3, now, timeout).result;
            r.Ok? && r.value.ula == LEGACY_INFRA && IsFixedInfra(r.value.ula)
  {
    hide Consistent, Register;
    var first, second := OpRegister(a, None, None, 1, now), OpRegister(b, None, None, 2, now);
    EmptyIsConsistent();
    PlainRegister(EMPTY_MESH, a, None, 1, now, timeout);
    var m1 := Step(EMPTY_MESH, first, timeout);
    PlainRegister(m1, b, None, 2, now, timeout);
    m := Step(m1, second, timeout);
    PlainRegister(m, c, None, 3, now, timeout);
    ops := [first, second];
    assert ops[1..] == [second] && ops[1..][1..] == [];
    assert Reaches(m, [], m, timeout);
    assert Reaches(m1, [second], m, timeout);
  }

  lemma EmptyIsConsistent()
    ensures Consistent(EMPTY_MESH)
  {
  }
}
